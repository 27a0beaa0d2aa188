/** Content indices and the conda policy (src/monitor/index.rs:75-247,
    crates/conda-monitor/src/conda.rs:115-207).

    Keys are modelled by the strings they are hashes of (`hash_key` is ideal). */
module Monitor {
  import opened Wrappers

  datatype Pending = Pending(key: string, index: nat, value: Option<string>)
  type Rows = map<string, (nat, Option<string>)>

  datatype Kind = DuplicateKey | ConflictingValue
  datatype Violation = Violation(kind: Kind, firstIndex: nat)

  // ---- one content index ----

  /** What an index knows about a key: the first pending entry for it, else the
      committed one. */
  function Lookup(index: Rows, pending: seq<Pending>, key: string): Option<(nat, Option<string>)> {
    if pending != [] && pending[0].key == key then Some((pending[0].index, pending[0].value))
    else if pending != [] then Lookup(index, pending[1..], key)
    else if key in index then Some(index[key]) else None
  }

  /** `check`, as a function of what is known. */
  function Verdict(known: Option<(nat, Option<string>)>, current: nat, expected: Option<string>): Option<Violation> {
    if known.None? then None
    else if expected.Some? && known.value.1 != expected then Some(Violation(ConflictingValue, known.value.0))
    else if known.value.0 == current then None
    else Some(Violation(DuplicateKey, known.value.0))
  }

  /** `commit`: pending entries overwrite committed ones, in order. */
  function CommitAll(index: Rows, pending: seq<Pending>): Rows
    decreases |pending|
  {
    if pending == [] then index
    else CommitAll(index[pending[0].key := (pending[0].index, pending[0].value)], pending[1..])
  }

  /** `save`: rows are inserted unless the key is already there. */
  function SaveAll(rows: Rows, pending: seq<Pending>): Rows
    decreases |pending|
  {
    if pending == [] then rows
    else
      var p := pending[0];
      SaveAll(if p.key in rows then rows else rows[p.key := (p.index, p.value)], pending[1..])
  }

  class ContentIndex {
    var index: Rows
    var pending: seq<Pending>

    constructor ()
      ensures index == map[] && pending == []
    {
      index, pending := map[], [];
    }

    /** `check`: a violation exactly when what is known about the key demands one. */
    method Check(key: string, current: nat, expected: Option<string>) returns (r: Option<Violation>)
      ensures r == Verdict(Lookup(index, pending, key), current, expected)
    {
      var i := 0;
      assert pending[0..] == pending;
      while i < |pending|
        invariant 0 <= i <= |pending|
        invariant Lookup(index, pending, key) == Lookup(index, pending[i..], key)
      {
        var entry := pending[i];
        assert pending[i..][1..] == pending[i + 1..];
        if entry.key == key {
          if expected.Some? && entry.value != expected {
            return Some(Violation(ConflictingValue, entry.index));
          }
          if entry.index == current { return None; }
          return Some(Violation(DuplicateKey, entry.index));
        }
        i := i + 1;
      }
      if key in index {
        var (first, stored) := index[key];
        if expected.Some? && stored != expected { return Some(Violation(ConflictingValue, first)); }
        if first == current { return None; }
        return Some(Violation(DuplicateKey, first));
      }
      return None;
    }

    /** `stage`. */
    method Stage(key: string, at: nat, value: Option<string>)
      modifies this`pending
      ensures pending == if Pending(key, at, value) in old(pending) then old(pending)
                         else old(pending) + [Pending(key, at, value)]
    {
      var p := Pending(key, at, value);
      if p !in pending { pending := pending + [p]; }
    }

    /** `commit`. */
    method Commit()
      modifies this
      ensures index == CommitAll(old(index), old(pending)) && pending == []
    {
      while pending != []
        invariant CommitAll(index, pending) == CommitAll(old(index), old(pending))
        decreases |pending|
      {
        index := index[pending[0].key := (pending[0].index, pending[0].value)];
        pending := pending[1..];
      }
    }

    /** `rollback`. */
    method Rollback()
      modifies this`pending
      ensures pending == []
    {
      pending := [];
    }

    /** `load_from`. */
    method LoadFrom(data: Rows)
      modifies this`index
      ensures index == data
    {
      index := data;
    }
  }

  // ---- the conda policy ----

  datatype Package = Package(sha: string, filename: string)

  /** The pending entries that validation has staged so far, for both indices. */
  datatype Staged = Staged(shas: seq<Pending>, files: seq<Pending>)

  function StageOne(pending: seq<Pending>, p: Pending): seq<Pending> {
    if p in pending then pending else pending + [p]
  }

  /** `validate_entry` against committed rows and staged entries: None is a violation. */
  function Validate(shaRows: Rows, fileRows: Rows, st: Staged, index: nat, pkg: Package): Option<Staged> {
    if Verdict(Lookup(shaRows, st.shas, pkg.sha), index, None).Some? then None
    else
      var v := Verdict(Lookup(fileRows, st.files, pkg.filename), index, Some(pkg.sha));
      if v.Some? && v.value.kind.ConflictingValue? then None
      else Some(Staged(StageOne(st.shas, Pending(pkg.sha, index, None)),
                       StageOne(st.files, Pending(pkg.filename, index, Some(pkg.sha)))))
  }

  class CondaMonitor {
    const shaIndex: ContentIndex
    const filenameIndex: ContentIndex

    constructor (shaIndex: ContentIndex, filenameIndex: ContentIndex)
      ensures this.shaIndex == shaIndex && this.filenameIndex == filenameIndex
    {
      this.shaIndex := shaIndex;
      this.filenameIndex := filenameIndex;
    }

    ghost function StagedState(): Staged
      reads shaIndex, filenameIndex
    {
      Staged(shaIndex.pending, filenameIndex.pending)
    }

    /** `validate_entry`: stages both keys, or reports a violation and stages nothing. */
    method ValidateEntry(index: nat, pkg: Option<Package>) returns (valid: bool)
      requires shaIndex != filenameIndex
      modifies shaIndex`pending, filenameIndex`pending
      ensures pkg.None? ==> !valid && StagedState() == old(StagedState())
      ensures pkg.Some? ==>
                var r := Validate(shaIndex.index, filenameIndex.index, old(StagedState()), index, pkg.value);
                valid == r.Some? && StagedState() == if r.Some? then r.value else old(StagedState())
    {
      if pkg.None? { return false; }
      var Package(sha, filename) := pkg.value;
      var v := shaIndex.Check(sha, index, None);
      if v.Some? { return false; }
      v := filenameIndex.Check(filename, index, Some(sha));
      if v.Some? && v.value.kind.ConflictingValue? { return false; }
      shaIndex.Stage(sha, index, None);
      filenameIndex.Stage(filename, index, Some(sha));
      return true;
    }

    /** The part of `add_locked` between lock and update, in one process: roll back,
        reload the origin's rows, validate the entries, hand the staged rows to the
        database and commit them in memory.  Its verdict and what it saves depend on the
        rows of the origin and the entries alone, whatever an earlier request has left in
        memory. */
    method Judge(shaRows: Rows, fileRows: Rows, from: nat, pkgs: seq<Option<Package>>)
      returns (saved: Option<(Rows, Rows)>)
      requires shaIndex != filenameIndex
      modifies shaIndex, filenameIndex
      ensures saved == Judgement(shaRows, fileRows, from, pkgs)
      ensures saved.None? ==> shaIndex.index == shaRows && filenameIndex.index == fileRows
      ensures saved.Some? ==>
                && StagedState() == Staged([], [])
                && var st := ValidateSome(shaRows, fileRows, from, pkgs).value;
                   shaIndex.index == CommitAll(shaRows, st.shas) && filenameIndex.index == CommitAll(fileRows, st.files)
    {
      hide Validate, SaveAll, CommitAll;
      shaIndex.Rollback();
      filenameIndex.Rollback();
      shaIndex.LoadFrom(shaRows);
      filenameIndex.LoadFrom(fileRows);
      for i := 0 to |pkgs|
        invariant shaIndex.index == shaRows && filenameIndex.index == fileRows
        invariant ValidateSome(shaRows, fileRows, from, pkgs[..i]) == Some(StagedState())
      {
        assert pkgs[..i + 1][..i] == pkgs[..i];
        var valid := ValidateEntry(from + i, pkgs[i]);
        if !valid {
          ValidateSomeFails(shaRows, fileRows, from, pkgs, i + 1);
          return None;
        }
      }
      assert pkgs[..|pkgs|] == pkgs;
      saved := Some((SaveAll(shaRows, shaIndex.pending), SaveAll(fileRows, filenameIndex.pending)));
      shaIndex.Commit();
      filenameIndex.Commit();
    }
  }

  /** Validation of consecutive entries, of which some may not parse. */
  function ValidateSome(shaRows: Rows, fileRows: Rows, from: nat, pkgs: seq<Option<Package>>): Option<Staged> {
    if pkgs == [] then Some(Staged([], []))
    else
      var n := |pkgs| - 1;
      var before := ValidateSome(shaRows, fileRows, from, pkgs[..n]);
      if before.None? || pkgs[n].None? then None else Validate(shaRows, fileRows, before.value, from + n, pkgs[n].value)
  }

  /** What a request leaves in the database: None if it is rejected. */
  function Judgement(shaRows: Rows, fileRows: Rows, from: nat, pkgs: seq<Option<Package>>): Option<(Rows, Rows)> {
    var st := ValidateSome(shaRows, fileRows, from, pkgs);
    if st.None? then None else Some((SaveAll(shaRows, st.value.shas), SaveAll(fileRows, st.value.files)))
  }

  lemma {:induction false} ValidateSomeFails(shaRows: Rows, fileRows: Rows, from: nat, pkgs: seq<Option<Package>>, i: nat)
    requires i <= |pkgs| && ValidateSome(shaRows, fileRows, from, pkgs[..i]).None?
    ensures ValidateSome(shaRows, fileRows, from, pkgs).None?
    decreases |pkgs|
  {
    if i < |pkgs| {
      assert pkgs[..|pkgs| - 1][..i] == pkgs[..i];
      ValidateSomeFails(shaRows, fileRows, from, pkgs[..|pkgs| - 1], i);
    } else {
      assert pkgs[..i] == pkgs;
    }
  }

  /** The judgement is the policy: with rows that know what has been seen, a request is
      accepted exactly when all its entries parse and keep the policy together with
      everything seen, and the saved rows then know them too. */
  lemma JudgementExact(shaRows: Rows, fileRows: Rows, seen: seq<Package>, pkgs: seq<Option<Package>>)
    requires Knows(shaRows, fileRows, Staged([], []), seen)
    ensures var r := Judgement(shaRows, fileRows, |seen|, pkgs);
            && (r.Some? <==> (forall p | p in pkgs :: p.Some?) && Policy(seen + Values(pkgs)))
            && (r.Some? ==> Knows(r.value.0, r.value.1, Staged([], []), seen + Values(pkgs)))
  {
    hide Knows, Policy, SaveAll, Validate;
    ValidateSomeIsAll(shaRows, fileRows, |seen|, pkgs);
    if forall p | p in pkgs :: p.Some? {
      ValidateAllExact(shaRows, fileRows, seen, Values(pkgs));
      var st := ValidateAll(shaRows, fileRows, |seen|, Values(pkgs));
      if st.Some? { SavedKnows(shaRows, fileRows, st.value, seen + Values(pkgs)); }
    }
  }

  /** The packages that parse. */
  function Values(pkgs: seq<Option<Package>>): seq<Package> {
    if pkgs == [] then []
    else Values(pkgs[..|pkgs| - 1]) + if pkgs[|pkgs| - 1].Some? then [pkgs[|pkgs| - 1].value] else []
  }

  lemma {:induction false} ValidateSomeIsAll(shaRows: Rows, fileRows: Rows, from: nat, pkgs: seq<Option<Package>>)
    ensures (forall p | p in pkgs :: p.Some?) ==>
              |Values(pkgs)| == |pkgs|
              && ValidateSome(shaRows, fileRows, from, pkgs) == ValidateAll(shaRows, fileRows, from, Values(pkgs))
    ensures !(forall p | p in pkgs :: p.Some?) ==> ValidateSome(shaRows, fileRows, from, pkgs).None?
    decreases |pkgs|
  {
    hide Validate;
    if pkgs != [] {
      var init, last := pkgs[..|pkgs| - 1], pkgs[|pkgs| - 1];
      assert pkgs == init + [last];
      ValidateSomeIsAll(shaRows, fileRows, from, init);
      if last.Some? { assert Values(pkgs)[..|Values(pkgs)| - 1] == Values(init); }
    }
  }

  /** Validation of consecutive entries from an index on, in one request. */
  function ValidateAll(shaRows: Rows, fileRows: Rows, from: nat, pkgs: seq<Package>): Option<Staged> {
    if pkgs == [] then Some(Staged([], []))
    else
      var n := |pkgs| - 1;
      var before := ValidateAll(shaRows, fileRows, from, pkgs[..n]);
      if before.None? then None else Validate(shaRows, fileRows, before.value, from + n, pkgs[n])
  }

  /** No sha256 twice, and one sha256 per filename. */
  ghost predicate Policy(seen: seq<Package>) {
    && (forall i, j | 0 <= i < j < |seen| :: seen[i].sha != seen[j].sha)
    && (forall i, j | 0 <= i < |seen| && 0 <= j < |seen| && seen[i].filename == seen[j].filename ::
          seen[i].sha == seen[j].sha)
  }

  /** The policy leaves no room for a repeated filename either. */
  lemma FilenamesUnique(seen: seq<Package>, i: nat, j: nat)
    requires Policy(seen) && i < |seen| && j < |seen| && seen[i].filename == seen[j].filename
    ensures i == j
  {
  }

  /** Rows and pending entries together know exactly the listed keys, each under its
      position and with its value, and what is pending is new, each key once. */
  ghost predicate IndexKnows(rows: Rows, pending: seq<Pending>, kvs: seq<(string, Option<string>)>) {
    && (forall i | 0 <= i < |kvs| :: Lookup(rows, pending, kvs[i].0) == Some((i, kvs[i].1)))
    && (forall k | Lookup(rows, pending, k).Some? ::
          var i := Lookup(rows, pending, k).value.0; i < |kvs| && kvs[i].0 == k)
    && (forall p | p in pending :: p.key !in rows)
    && (forall i, j | 0 <= i < j < |pending| :: pending[i].key != pending[j].key)
  }

  ghost function ShaKeys(seen: seq<Package>): seq<(string, Option<string>)> {
    seq(|seen|, i requires 0 <= i < |seen| => (seen[i].sha, None))
  }

  ghost function FileKeys(seen: seq<Package>): seq<(string, Option<string>)> {
    seq(|seen|, i requires 0 <= i < |seen| => (seen[i].filename, Some(seen[i].sha)))
  }

  /** Both indices know exactly the seen packages. */
  ghost predicate Knows(shaRows: Rows, fileRows: Rows, st: Staged, seen: seq<Package>) {
    IndexKnows(shaRows, st.shas, ShaKeys(seen)) && IndexKnows(fileRows, st.files, FileKeys(seen))
  }

  /** A violation exactly when some other position has the key or the value differs from
      the expected one.  It names the position of the key, and is a conflict exactly when
      the value differs. */
  lemma VerdictExact(rows: Rows, pending: seq<Pending>, kvs: seq<(string, Option<string>)>, key: string, current: nat,
                     expected: Option<string>)
    requires IndexKnows(rows, pending, kvs)
    ensures var v := Verdict(Lookup(rows, pending, key), current, expected);
            && (v.None? <==> forall i | 0 <= i < |kvs| && kvs[i].0 == key ::
                               i == current && (expected.Some? ==> kvs[i].1 == expected))
            && (v.Some? ==>
                  var i := v.value.firstIndex;
                  && i < |kvs| && kvs[i].0 == key
                  && (v.value.kind == ConflictingValue <==> expected.Some? && kvs[i].1 != expected))
  {
    var known := Lookup(rows, pending, key);
    if known.Some? {
      var i := known.value.0;
      assert kvs[i].0 == key;
      forall j | 0 <= j < |kvs| && kvs[j].0 == key ensures j == i { assert Lookup(rows, pending, kvs[j].0) == known; }
    }
  }

  /** Known keys are distinct. */
  lemma KnownDistinct(rows: Rows, pending: seq<Pending>, kvs: seq<(string, Option<string>)>, i: nat, j: nat)
    requires IndexKnows(rows, pending, kvs) && i < |kvs| && j < |kvs| && kvs[i].0 == kvs[j].0
    ensures i == j
  {
  }

  /** Knowing every package under its own index is the policy. */
  lemma KnowsPolicy(shaRows: Rows, fileRows: Rows, st: Staged, seen: seq<Package>)
    requires Knows(shaRows, fileRows, st, seen)
    ensures Policy(seen)
  {
    hide IndexKnows;
    forall i, j | 0 <= i < |seen| && 0 <= j < |seen|
      ensures i < j ==> seen[i].sha != seen[j].sha
      ensures seen[i].filename == seen[j].filename ==> seen[i].sha == seen[j].sha
    {
      var s, f := ShaKeys(seen), FileKeys(seen);
      if s[i].0 == s[j].0 { KnownDistinct(shaRows, st.shas, s, i, j); }
      if f[i].0 == f[j].0 { KnownDistinct(fileRows, st.files, f, i, j); }
    }
  }

  lemma {:induction false} LookupAppend(rows: Rows, pending: seq<Pending>, p: Pending, key: string)
    requires Lookup(rows, pending, p.key).None?
    ensures Lookup(rows, pending + [p], key) == if key == p.key then Some((p.index, p.value)) else Lookup(rows, pending, key)
    decreases |pending|
  {
    if pending != [] {
      assert (pending + [p])[1..] == pending[1..] + [p];
      LookupAppend(rows, pending[1..], p, key);
    } else {
      assert ([] + [p])[1..] == [];
    }
  }

  lemma {:induction false} LookupMember(rows: Rows, pending: seq<Pending>, p: Pending)
    requires p in pending
    ensures Lookup(rows, pending, p.key).Some?
    decreases |pending|
  {
    if pending[0].key != p.key { LookupMember(rows, pending[1..], p); }
  }

  lemma {:induction false} LookupCommitted(rows: Rows, pending: seq<Pending>, key: string)
    requires key in rows
    ensures Lookup(rows, pending, key).Some?
    ensures (forall p | p in pending :: p.key != key) ==> Lookup(rows, pending, key) == Some(rows[key])
    decreases |pending|
  {
    if pending != [] {
      LookupCommitted(rows, pending[1..], key);
      assert pending[0] in pending && forall p | p in pending[1..] :: p in pending;
    }
  }

  /** An unknown key joins what is known. */
  lemma IndexGrows(rows: Rows, pending: seq<Pending>, kvs: seq<(string, Option<string>)>, key: string, value: Option<string>)
    requires IndexKnows(rows, pending, kvs) && Lookup(rows, pending, key).None?
    ensures IndexKnows(rows, StageOne(pending, Pending(key, |kvs|, value)), kvs + [(key, value)])
  {
    hide Lookup;
    var p := Pending(key, |kvs|, value);
    if p in pending { LookupMember(rows, pending, p); }
    if key in rows { LookupCommitted(rows, pending, key); }
    KnownGrows(rows, pending, p, kvs);
  }

  lemma KnownGrows(rows: Rows, pending: seq<Pending>, p: Pending, kvs: seq<(string, Option<string>)>)
    requires IndexKnows(rows, pending, kvs) && Lookup(rows, pending, p.key).None?
    requires p.index == |kvs| && p.key !in rows
    ensures IndexKnows(rows, pending + [p], kvs + [(p.key, p.value)])
  {
    hide Lookup;
    var pending', kvs' := pending + [p], kvs + [(p.key, p.value)];
    forall k
      ensures Lookup(rows, pending', k) == if k == p.key then Some((p.index, p.value)) else Lookup(rows, pending, k)
    {
      LookupAppend(rows, pending, p, k);
    }
    forall i | 0 <= i < |kvs'|
      ensures Lookup(rows, pending', kvs'[i].0) == Some((i, kvs'[i].1))
    {
      if i < |kvs| { assert Lookup(rows, pending, kvs[i].0).Some?; }
    }
    forall q | q in pending ensures q.key != p.key { LookupMember(rows, pending, q); }
  }

  /** A package passes validation exactly when it keeps the policy, and then it is known. */
  lemma ValidateExact(shaRows: Rows, fileRows: Rows, st: Staged, seen: seq<Package>, pkg: Package)
    requires Knows(shaRows, fileRows, st, seen)
    ensures var r := Validate(shaRows, fileRows, st, |seen|, pkg);
            && (r.Some? <==> Policy(seen + [pkg]))
            && (r.Some? ==> Knows(shaRows, fileRows, r.value, seen + [pkg]))
  {
    hide Lookup;
    var n, seen' := |seen|, seen + [pkg];
    var shaKnown, fileKnown := Lookup(shaRows, st.shas, pkg.sha), Lookup(fileRows, st.files, pkg.filename);
    if shaKnown.Some? {
      assert seen'[shaKnown.value.0].sha == seen'[n].sha;
    } else if fileKnown.Some? {
      var i := fileKnown.value.0;
      assert FileKeys(seen)[i] == (seen[i].filename, Some(seen[i].sha)) && ShaKeys(seen)[i].0 == seen[i].sha;
      assert Lookup(shaRows, st.shas, seen[i].sha).Some?;
      assert seen'[i].filename == seen'[n].filename && seen'[i].sha != seen'[n].sha;
    } else {
      assert ShaKeys(seen') == ShaKeys(seen) + [(pkg.sha, None)];
      assert FileKeys(seen') == FileKeys(seen) + [(pkg.filename, Some(pkg.sha))];
      hide IndexKnows;
      IndexGrows(shaRows, st.shas, ShaKeys(seen), pkg.sha, None);
      IndexGrows(fileRows, st.files, FileKeys(seen), pkg.filename, Some(pkg.sha));
      KnowsPolicy(shaRows, fileRows, Validate(shaRows, fileRows, st, n, pkg).value, seen');
    }
  }

  lemma PolicyPrefix(seen: seq<Package>, more: seq<Package>)
    requires Policy(seen + more)
    ensures Policy(seen)
  {
    var all := seen + more;
    forall i, j | 0 <= i < |seen| && 0 <= j < |seen|
      ensures i < j ==> seen[i].sha != seen[j].sha
      ensures seen[i].filename == seen[j].filename ==> seen[i].sha == seen[j].sha
    {
      assert all[i] == seen[i] && all[j] == seen[j];
    }
  }

  /** A request passes exactly when all its packages keep the policy. */
  lemma {:induction false} ValidateAllExact(shaRows: Rows, fileRows: Rows, seen: seq<Package>, pkgs: seq<Package>)
    requires Knows(shaRows, fileRows, Staged([], []), seen)
    ensures var r := ValidateAll(shaRows, fileRows, |seen|, pkgs);
            && (r.Some? <==> Policy(seen + pkgs))
            && (r.Some? ==> Knows(shaRows, fileRows, r.value, seen + pkgs))
    decreases |pkgs|
  {
    hide Knows, Policy, Validate;
    if pkgs == [] {
      assert seen + pkgs == seen;
      KnowsPolicy(shaRows, fileRows, Staged([], []), seen);
    } else {
      var init, last := pkgs[..|pkgs| - 1], pkgs[|pkgs| - 1];
      assert (seen + init) + [last] == seen + pkgs;
      ValidateAllExact(shaRows, fileRows, seen, init);
      if ValidateAll(shaRows, fileRows, |seen|, init).None? {
        if Policy(seen + pkgs) { PolicyPrefix(seen + init, [last]); }
      } else {
        ValidateExact(shaRows, fileRows, ValidateAll(shaRows, fileRows, |seen|, init).value, seen + init, last);
      }
    }
  }

  // ---- persisting ----

  lemma {:induction false} SaveKeeps(rows: Rows, pending: seq<Pending>, key: string)
    requires key in rows
    ensures key in SaveAll(rows, pending) && SaveAll(rows, pending)[key] == rows[key]
    decreases |pending|
  {
    if pending != [] {
      var p := pending[0];
      SaveKeeps(if p.key in rows then rows else rows[p.key := (p.index, p.value)], pending[1..], key);
    }
  }

  lemma {:induction false} SameLookup(a: Rows, b: Rows, pending: seq<Pending>, key: string)
    requires key !in a && key !in b
    ensures Lookup(a, pending, key) == Lookup(b, pending, key)
    decreases |pending|
  {
    if pending != [] { SameLookup(a, b, pending[1..], key); }
  }

  /** The saved rows know what rows and pending entries knew together. */
  lemma {:induction false} SavedLookup(rows: Rows, pending: seq<Pending>, key: string)
    requires key !in rows
    ensures Lookup(SaveAll(rows, pending), [], key) == Lookup(rows, pending, key)
    decreases |pending|
  {
    if pending != [] {
      var p := pending[0];
      var rows' := if p.key in rows then rows else rows[p.key := (p.index, p.value)];
      if p.key == key { SaveKeeps(rows', pending[1..], key); }
      else { SavedLookup(rows', pending[1..], key); SameLookup(rows, rows', pending[1..], key); }
    }
  }

  /** Committing in memory gives the rows that saving gives in the database. */
  lemma {:induction false} CommitIsSave(rows: Rows, pending: seq<Pending>)
    requires forall p | p in pending :: p.key !in rows
    requires forall i, j | 0 <= i < j < |pending| :: pending[i].key != pending[j].key
    ensures CommitAll(rows, pending) == SaveAll(rows, pending)
    decreases |pending|
  {
    if pending != [] {
      var p := pending[0];
      assert p in pending;
      CommitIsSave(rows[p.key := (p.index, p.value)], pending[1..]);
    }
  }

  /** So after an accepted request the indices in memory are the origin's saved rows. */
  lemma JudgedMemory(shaRows: Rows, fileRows: Rows, seen: seq<Package>, pkgs: seq<Option<Package>>)
    requires Knows(shaRows, fileRows, Staged([], []), seen) && ValidateSome(shaRows, fileRows, |seen|, pkgs).Some?
    ensures var st := ValidateSome(shaRows, fileRows, |seen|, pkgs).value;
            Judgement(shaRows, fileRows, |seen|, pkgs) == Some((CommitAll(shaRows, st.shas), CommitAll(fileRows, st.files)))
  {
    hide Validate, SaveAll, CommitAll, Policy, Lookup, ValidateSome, ValidateAll;
    ValidateSomeIsAll(shaRows, fileRows, |seen|, pkgs);
    ValidateAllExact(shaRows, fileRows, seen, Values(pkgs));
    var st := ValidateSome(shaRows, fileRows, |seen|, pkgs).value;
    CommitIsSave(shaRows, st.shas);
    CommitIsSave(fileRows, st.files);
  }

  /** After `commit_entries` the database alone knows everything. */
  lemma SavedKnows(shaRows: Rows, fileRows: Rows, st: Staged, seen: seq<Package>)
    requires Knows(shaRows, fileRows, st, seen)
    ensures Knows(SaveAll(shaRows, st.shas), SaveAll(fileRows, st.files), Staged([], []), seen)
  {
    hide IndexKnows;
    SavedIndex(shaRows, st.shas, ShaKeys(seen));
    SavedIndex(fileRows, st.files, FileKeys(seen));
  }

  lemma SavedIndex(rows: Rows, pending: seq<Pending>, kvs: seq<(string, Option<string>)>)
    requires IndexKnows(rows, pending, kvs)
    ensures IndexKnows(SaveAll(rows, pending), [], kvs)
  {
    hide Lookup, SaveAll;
    forall k
      ensures Lookup(SaveAll(rows, pending), [], k) == Lookup(rows, pending, k)
    {
      SavedRow(rows, pending, k);
    }
  }

  lemma SavedRow(rows: Rows, pending: seq<Pending>, key: string)
    requires forall p | p in pending :: p.key !in rows
    ensures Lookup(SaveAll(rows, pending), [], key) == Lookup(rows, pending, key)
  {
    if key in rows {
      SaveKeeps(rows, pending, key);
      LookupCommitted(rows, pending, key);
    } else {
      SavedLookup(rows, pending, key);
    }
  }
}

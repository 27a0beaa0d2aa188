/** The verifiable index: what it holds, how entries are added, and how it is
    restored from a snapshot and the write-ahead log (src/vindex/mod.rs:286-570,
    src/vindex/wal.rs:358-435).

    `Keys` is the log as the index sees it: for every entry, the sorted and
    deduplicated keys that `map_fn` extracts from it. */
module Vindex {
  import opened Bits
  import opened Rfc6962
  import opened Wrappers
  import opened Wal
  import opened PrefixTrees

  type Index = map<IndexKey, seq<nat>>
  type Keys = seq<seq<IndexKey>>

  /** Extracted keys are distinct. */
  ghost predicate Distinct(keys: seq<IndexKey>) {
    forall a, b | 0 <= a < b < |keys| :: keys[a] != keys[b]
  }

  // ---- adding entries ----

  function Get(m: Index, key: IndexKey): seq<nat> { if key in m then m[key] else [] }

  /** Record an index under a key, unless it is there already. */
  function AddKey(m: Index, key: IndexKey, idx: nat): Index {
    if idx in Get(m, key) then m else m[key := Get(m, key) + [idx]]
  }

  function AddKeys(m: Index, keys: seq<IndexKey>, idx: nat): Index {
    if keys == [] then m else AddKey(AddKeys(m, keys[..|keys| - 1], idx), keys[|keys| - 1], idx)
  }

  lemma AddKeysStep(m: Index, keys: seq<IndexKey>, i: nat, idx: nat)
    requires i < |keys|
    ensures AddKeys(m, keys[..i + 1], idx) == AddKey(AddKeys(m, keys[..i], idx), keys[i], idx)
  {
    assert keys[..i + 1][..i] == keys[..i];
  }

  lemma NoKeys(m: Index, keys: seq<IndexKey>, idx: nat)
    requires keys == []
    ensures AddKeys(m, keys, idx) == m
  {
  }

  /** The index over the first n entries: `map_fn` folded over the log. */
  function IndexUpTo(log: Keys, n: nat): Index
    requires n <= |log|
  {
    if n == 0 then map[] else AddKeys(IndexUpTo(log, n - 1), log[n - 1], n - 1)
  }

  /** Which entries below n carry a key, in order. */
  function Occurrences(log: Keys, n: nat, key: IndexKey): seq<nat>
    requires n <= |log|
  {
    if n == 0 then []
    else if key in log[n - 1] then Occurrences(log, n - 1, key) + [n - 1]
    else Occurrences(log, n - 1, key)
  }

  lemma {:induction false} OccurrencesExact(log: Keys, n: nat, key: IndexKey)
    requires n <= |log|
    ensures var s := Occurrences(log, n, key);
            && (forall i: nat :: i in s <==> i < n && key in log[i])
            && (forall a, b | 0 <= a < b < |s| :: s[a] < s[b])
  {
    if n > 0 {
      OccurrencesExact(log, n - 1, key);
      var t := Occurrences(log, n - 1, key);
      forall a | 0 <= a < |t| ensures t[a] < n - 1 { assert t[a] in t; }
    }
  }

  lemma {:induction false} AddKeysEffect(m: Index, keys: seq<IndexKey>, idx: nat, key: IndexKey)
    requires idx !in Get(m, key)
    ensures key in AddKeys(m, keys, idx) <==> key in m || key in keys
    ensures Get(AddKeys(m, keys, idx), key) == if key in keys then Get(m, key) + [idx] else Get(m, key)
    decreases |keys|
  {
    if keys != [] {
      var init, last := keys[..|keys| - 1], keys[|keys| - 1];
      assert keys == init + [last];
      AddKeysEffect(m, init, idx, key);
    }
  }

  /** The index holds, for every key, exactly the entries that carry it, in order. */
  lemma {:induction false} IndexMeaning(log: Keys, n: nat, key: IndexKey)
    requires n <= |log|
    ensures key in IndexUpTo(log, n) <==> Occurrences(log, n, key) != []
    ensures Get(IndexUpTo(log, n), key) == Occurrences(log, n, key)
  {
    hide AddKeys;
    if n > 0 {
      IndexMeaning(log, n - 1, key);
      OccurrencesExact(log, n - 1, key);
      AddKeysEffect(IndexUpTo(log, n - 1), log[n - 1], n - 1, key);
    }
  }

  lemma {:induction false} IndexPrefix(log: Keys, log': Keys, n: nat)
    requires n <= |log| && log <= log'
    ensures IndexUpTo(log, n) == IndexUpTo(log', n)
  {
    if n > 0 { IndexPrefix(log, log', n - 1); }
  }

  // ---- the prefix tree beside the index ----

  /** The k low bits of a number, most significant first. */
  function LowBits(n: nat, k: nat): (s: Bitstring)
    ensures |s| == k
  {
    if k == 0 then [] else LowBits(n / 2, k - 1) + [n % 2 == 1]
  }

  function KeyBits(k: seq<byte>): (s: Bitstring)
    ensures |s| == 8 * |k|
  {
    if k == [] then [] else KeyBits(k[..|k| - 1]) + LowBits(k[|k| - 1], 8)
  }

  lemma {:induction false} LowBitsAt(n: nat, k: nat, i: nat)
    requires i < k
    ensures LowBits(n, k)[i] <==> Shr(n, k - 1 - i) % 2 == 1
  {
    if i < k - 1 {
      LowBitsAt(n / 2, k - 1, i);
      ShrFirst(n, k - 1 - i);
    }
  }

  lemma {:induction false} ShrFirst(n: nat, l: nat)
    requires l > 0
    ensures Shr(n, l) == Shr(n / 2, l - 1)
  {
    if l > 1 { ShrFirst(n, l - 1); }
  }

  /** Bytes in order, and in each byte the most significant bit first. */
  lemma {:induction false} KeyBitsAt(k: seq<byte>, i: nat)
    requires i < 8 * |k|
    ensures KeyBits(k)[i] <==> Shr(k[i / 8], 7 - i % 8) % 2 == 1
  {
    var n := |k| - 1;
    hide LowBits, Shr;
    if i < 8 * n { KeyBitsAt(k[..n], i); } else { LowBitsAt(k[n], 8, i - 8 * n); }
  }

  lemma {:induction false} LowBitsInjective(a: nat, b: nat, k: nat)
    requires a < Pow2(k) && b < Pow2(k) && LowBits(a, k) == LowBits(b, k)
    ensures a == b
    decreases k
  {
    if k > 0 {
      var s, t := LowBits(a, k), LowBits(b, k);
      assert s[..k - 1] == LowBits(a / 2, k - 1) && t[..k - 1] == LowBits(b / 2, k - 1);
      assert s[k - 1] == t[k - 1];
      LowBitsInjective(a / 2, b / 2, k - 1);
    }
  }

  lemma {:induction false} KeyBitsInjective(a: seq<byte>, b: seq<byte>)
    requires |a| == |b| && KeyBits(a) == KeyBits(b)
    ensures a == b
  {
    hide LowBits;
    if a != [] {
      var n := |a| - 1;
      assert KeyBits(a)[..8 * n] == KeyBits(a[..n]) && KeyBits(b)[..8 * n] == KeyBits(b[..n]);
      assert KeyBits(a)[8 * n..] == LowBits(a[n], 8) && KeyBits(b)[8 * n..] == LowBits(b[n], 8);
      KeyBitsInjective(a[..n], b[..n]);
      assert Pow2(8) == 256;
      LowBitsInjective(a[n], b[n], 8);
      assert a == a[..n] + [a[n]] && b == b[..n] + [b[n]];
    }
  }

  /** The tree stores, for each key, the (ideal) hash of its index list. */
  ghost predicate TreeMatches(tree: Node<seq<nat>>, m: Index) {
    && WellFormed(tree)
    && (forall k | k in m :: KeyBits(k) in Entries(tree) && Entries(tree)[KeyBits(k)] == m[k])
    && forall b | b in Entries(tree) :: exists k :: k in m && KeyBits(k) == b
  }

  /** The tree is determined by the index, so a rebuilt tree is the live tree. */
  lemma TreeDetermined(a: Node<seq<nat>>, b: Node<seq<nat>>, m: Index)
    requires TreeMatches(a, m) && TreeMatches(b, m)
    ensures a == b
  {
    assert Entries(a) == Entries(b);
    RootHashIsMap(a, b);
  }

  /** The tree update that goes with `AddKey`. */
  function TreeAdd(tree: Node<seq<nat>>, m: Index, key: IndexKey, idx: nat): Node<seq<nat>>
    requires WellFormed(tree)
  {
    if idx in Get(m, key) then tree else InsertRec(tree, KeyBits(key), Get(m, key) + [idx], [])
  }

  lemma TreePutMatches(tree: Node<seq<nat>>, m: Index, key: IndexKey, value: seq<nat>)
    requires TreeMatches(tree, m)
    ensures TreeMatches(InsertRec(tree, KeyBits(key), value, []), m[key := value])
  {
    hide Entries, Good, InsertRec, KeyBits;
    var bits, m' := KeyBits(key), m[key := value];
    InsertCorrect(tree, bits, value, []);
    var e := Entries(InsertRec(tree, bits, value, []));
    forall k | k in m'
      ensures KeyBits(k) in e && e[KeyBits(k)] == m'[k]
    {
      if KeyBits(k) == bits { KeyBitsInjective(k, key); }
    }
    forall b | b in e
      ensures exists k :: k in m' && KeyBits(k) == b
    {
      if b == bits { assert key in m'; }
      else { var k :| k in m && KeyBits(k) == b; assert k in m'; }
    }
  }

  lemma TreeAddMatches(tree: Node<seq<nat>>, m: Index, key: IndexKey, idx: nat)
    requires TreeMatches(tree, m)
    ensures TreeMatches(TreeAdd(tree, m, key, idx), AddKey(m, key, idx))
  {
    TreePutMatches(tree, m, key, Get(m, key) + [idx]);
  }

  function NewKeys(m: Index, keys: seq<IndexKey>): set<IndexKey> {
    set k | k in keys && k !in m
  }

  /** The memory limits that `index_entry` checks before it changes anything. */
  predicate Fits(m: Index, keys: seq<IndexKey>, maxKeys: nat, maxIndices: nat) {
    keys == [] || (|m| + |NewKeys(m, keys)| <= maxKeys && forall k | k in keys && k in m :: |m[k]| < maxIndices)
  }

  /** Indexing the first n entries one after the other passes all checks. */
  ghost predicate AdmittedAll(log: Keys, n: nat, maxKeys: nat, maxIndices: nat)
    requires n <= |log|
  {
    forall i | 0 <= i < n :: |log[i]| <= 255 && Fits(IndexUpTo(log, i), log[i], maxKeys, maxIndices)
  }

  ghost predicate WithinLimits(m: Index, maxKeys: nat, maxIndices: nat) {
    |m| <= maxKeys && forall k | k in m :: |m[k]| <= maxIndices
  }

  /** The exact condition of the checks, whatever the index has grown to: an entry with keys
      is admitted if and only if, with it, the index has no more than `maxKeys` keys, and each
      key that it had before has room for one of the `maxIndices` indices. */
  lemma FitsExact(log: Keys, n: nat, maxKeys: nat, maxIndices: nat)
    requires n < |log|
    ensures var m, m' := IndexUpTo(log, n), IndexUpTo(log, n + 1);
            Fits(m, log[n], maxKeys, maxIndices)
            <==> log[n] == [] || (|m'| <= maxKeys && forall k | k in log[n] && k in m :: |m[k]| < maxIndices)
  {
    var m, m', keys := IndexUpTo(log, n), IndexUpTo(log, n + 1), log[n];
    hide IndexUpTo;
    forall k
      ensures k in m' <==> k in m || k in NewKeys(m, keys)
    {
      EntryAdds(log, n, k);
    }
    assert m'.Keys == m.Keys + NewKeys(m, keys);
    assert m.Keys !! NewKeys(m, keys);
  }

  lemma EntryAdds(log: Keys, n: nat, k: IndexKey)
    requires n < |log|
    ensures var m, m', keys := IndexUpTo(log, n), IndexUpTo(log, n + 1), log[n];
            && (k in m' <==> k in m || k in keys)
            && |Get(m', k)| == |Get(m, k)| + if k in keys then 1 else 0
  {
    IndexMeaning(log, n, k);
    OccurrencesExact(log, n, k);
    AddKeysEffect(IndexUpTo(log, n), log[n], n, k);
  }

  /** Within the limits, the checks admit an entry exactly when the index stays within them. */
  lemma LimitsExact(log: Keys, n: nat, maxKeys: nat, maxIndices: nat)
    requires n < |log| && maxIndices > 0
    requires WithinLimits(IndexUpTo(log, n), maxKeys, maxIndices)
    ensures Fits(IndexUpTo(log, n), log[n], maxKeys, maxIndices)
            <==> WithinLimits(IndexUpTo(log, n + 1), maxKeys, maxIndices)
  {
    var m, m', keys := IndexUpTo(log, n), IndexUpTo(log, n + 1), log[n];
    hide IndexUpTo;
    forall k
      ensures k in m' <==> k in m || k in NewKeys(m, keys)
      ensures k in m' ==> |m'[k]| == |Get(m, k)| + if k in keys then 1 else 0
    {
      EntryAdds(log, n, k);
    }
    assert m'.Keys == m.Keys + NewKeys(m, keys);
    assert m.Keys !! NewKeys(m, keys);
  }

  /** An index was within the limits before an entry if it is with it. */
  lemma WithinBefore(log: Keys, n: nat, maxKeys: nat, maxIndices: nat)
    requires n < |log| && WithinLimits(IndexUpTo(log, n + 1), maxKeys, maxIndices)
    ensures WithinLimits(IndexUpTo(log, n), maxKeys, maxIndices)
  {
    var m, m' := IndexUpTo(log, n), IndexUpTo(log, n + 1);
    hide IndexUpTo;
    forall k ensures k in m ==> k in m' && |m[k]| <= |m'[k]| { EntryAdds(log, n, k); }
    assert m.Keys <= m'.Keys;
    assert m'.Keys == m.Keys + (m'.Keys - m.Keys);
  }

  /** All entries are admitted one after the other if and only if none has more than 255
      keys and the index of them all is within the limits. */
  lemma {:induction false} AdmittedExactly(log: Keys, n: nat, maxKeys: nat, maxIndices: nat)
    requires n <= |log| && maxIndices > 0
    ensures AdmittedAll(log, n, maxKeys, maxIndices)
            <==> (forall i | 0 <= i < n :: |log[i]| <= 255) && WithinLimits(IndexUpTo(log, n), maxKeys, maxIndices)
  {
    hide Fits, IndexUpTo, WithinLimits;
    if n == 0 {
      NothingWithin(log, maxKeys, maxIndices);
    } else {
      AdmittedExactly(log, n - 1, maxKeys, maxIndices);
      if WithinLimits(IndexUpTo(log, n), maxKeys, maxIndices) { WithinBefore(log, n - 1, maxKeys, maxIndices); }
      if WithinLimits(IndexUpTo(log, n - 1), maxKeys, maxIndices) { LimitsExact(log, n - 1, maxKeys, maxIndices); }
    }
  }

  lemma NothingWithin(log: Keys, maxKeys: nat, maxIndices: nat)
    ensures WithinLimits(IndexUpTo(log, 0), maxKeys, maxIndices)
  {
  }

  class VerifiableIndex {
    var index: Index
    var treeSize: nat
    var tree: Node<seq<nat>>

    /** The index and its tree are those of the first `treeSize` entries. */
    ghost predicate Valid(log: Keys)
      reads this
    {
      treeSize <= |log| && index == IndexUpTo(log, treeSize) && TreeMatches(tree, index)
    }

    constructor ()
      ensures forall log :: Valid(log)
      ensures treeSize == 0
    {
      index, treeSize, tree := map[], 0, Empty;
    }

    /** `index_entry`: old entries are skipped, gaps and over-full entries refused,
        and the next entry extends index, tree and size together. */
    method IndexEntry(idx: nat, keys: seq<IndexKey>, maxKeys: nat, maxIndices: nat, ghost log: Keys)
      returns (r: Result<(), ()>)
      requires Valid(log) && idx < |log| && keys == log[idx]
      modifies this
      ensures Valid(log)
      ensures treeSize == old(treeSize) + if r.Ok? && idx == old(treeSize) then 1 else 0
      ensures idx < old(treeSize) ==> r.Ok?
      ensures idx == old(treeSize) ==> (r.Ok? <==> |keys| <= 255 && Fits(old(index), keys, maxKeys, maxIndices))
      ensures idx > old(treeSize) ==> r.Err?
    {
      hide AddKeys, TreeAdd, AddKey, Entries, Good;
      if idx < treeSize { return Ok(()); }
      if idx != treeSize { return Err(()); }
      if |keys| > 255 || !Fits(index, keys, maxKeys, maxIndices) { return Err(()); }
      NoKeys(index, keys[..0], idx);
      var m, t := index, tree;
      for i := 0 to |keys|
        invariant index == old(index) && treeSize == old(treeSize)
        invariant m == AddKeys(index, keys[..i], idx)
        invariant TreeMatches(t, m)
      {
        AddKeysStep(index, keys, i, idx);
        TreeAddMatches(t, m, keys[i], idx);
        t := TreeAdd(t, m, keys[i], idx);
        m := AddKey(m, keys[i], idx);
      }
      assert keys[..|keys|] == keys;
      index, tree, treeSize := m, t, treeSize + 1;
      return Ok(());
    }

    /** `lookup`: the entries below the tree size that carry the key, and a proof that
        is found, and folds to the root hash, exactly when there are any. */
    method Lookup(key: IndexKey, ghost log: Keys)
      returns (indices: seq<nat>, found: bool, proof: seq<ProofNode<seq<nat>>>, rootHash: Digest<seq<nat>>)
      requires Valid(log)
      ensures indices == Occurrences(log, treeSize, key)
      ensures found <==> indices != []
      ensures rootHash == NodeHash(tree)
      ensures forall i | 0 <= i < |proof| :: proof[i].sibling != []
      ensures found ==> Fold(LeafDigest(KeyBits(key), indices), proof) == rootHash
    {
      IndexMeaning(log, treeSize, key);
      indices := Get(index, key);
      var result := PrefixTrees.Lookup(tree, KeyBits(key), [], []);
      if !tree.Empty? { LookupCorrect(tree, KeyBits(key), [], []); }
      if KeyBits(key) in Entries(tree) {
        var k :| k in index && KeyBits(k) == KeyBits(key);
        KeyBitsInjective(k, key);
      }
      assert result.1[0..] == result.1;
      found, proof, rootHash := result.0, result.1, NodeHash(tree);
    }
  }
}

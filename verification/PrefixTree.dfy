/** The Merkle prefix tree (src/vindex/prefix_tree.rs:211-485), over bit strings.

    The tree is canonical: it is determined by the map it represents, so neither
    insertion order nor overwriting can be seen in it or in its root hash. */
module PrefixTrees {
  import opened Labels
  import opened Wrappers

  const KEY_BITS: nat := 256

  type Bitstring = seq<bool>

  /** Ideal node hashes: 0x00-leaf, 0x01-internal and the all-zero hash. */
  datatype Digest<V> =
    | ZeroDigest
    | LeafDigest(key: Bitstring, value: V)
    | InternalDigest(prefix: Bitstring, left: Digest<V>, right: Digest<V>)

  datatype Node<V> =
    | Empty
    | Leaf(key: Bitstring, value: V)
    | Internal(prefix: Bitstring, left: Node<V>, right: Node<V>, hash: Digest<V>)

  /** `Node::hash`, which trusts the cached hash of internal nodes. */
  function NodeHash<V>(n: Node<V>): Digest<V> {
    match n
    case Empty => ZeroDigest
    case Leaf(key, value) => LeafDigest(key, value)
    case Internal(_, _, _, hash) => hash
  }

  /** An internal node with its hash computed by `compute_internal_hash`. */
  function Join<V>(prefix: Bitstring, left: Node<V>, right: Node<V>): Node<V> {
    Internal(prefix, left, right, InternalDigest(prefix, NodeHash(left), NodeHash(right)))
  }

  /** A non-empty subtree whose keys all extend p: prefixes lengthen downwards, bits
      choose sides, no child is empty and the cached hash is right. */
  ghost predicate Good<V>(n: Node<V>, p: Bitstring) {
    match n
    case Empty => false
    case Leaf(key, _) => |key| == KEY_BITS && p <= key
    case Internal(prefix, left, right, _) =>
      && p <= prefix && |prefix| < KEY_BITS
      && Good(left, prefix + [false]) && Good(right, prefix + [true])
      && n == Join(prefix, left, right)
  }

  ghost predicate WellFormed<V>(root: Node<V>) { root.Empty? || Good(root, []) }

  /** The map that a tree represents. */
  function Entries<V>(n: Node<V>): map<Bitstring, V> {
    match n
    case Empty => map[]
    case Leaf(key, value) => map[key := value]
    case Internal(_, left, right, _) => Entries(left) + Entries(right)
  }

  lemma {:induction false} KeysExtend<V>(n: Node<V>, p: Bitstring, k: Bitstring)
    requires Good(n, p) && k in Entries(n)
    ensures |k| == KEY_BITS && p <= k
  {
    match n
    case Leaf(_, _) =>
    case Internal(prefix, left, right, _) =>
      if k in Entries(left) {
        KeysExtend(left, prefix + [false], k);
      } else {
        KeysExtend(right, prefix + [true], k);
      }
      PrefixOfExtension(p, prefix, k);
  }

  lemma PrefixOfExtension(p: Bitstring, q: Bitstring, k: Bitstring)
    requires p <= q && |q| < |k| && (q + [false] <= k || q + [true] <= k)
    ensures q <= k && p <= k
    ensures q + [k[|q|]] <= k
  {
  }

  /** Which side of an internal node a key lies on. */
  lemma KeySide<V>(prefix: Bitstring, left: Node<V>, right: Node<V>, k: Bitstring)
    requires Good(left, prefix + [false]) && Good(right, prefix + [true])
    ensures k in Entries(left) ==> |k| == KEY_BITS && |prefix| < |k| && prefix <= k && !k[|prefix|]
    ensures k in Entries(right) ==> |k| == KEY_BITS && |prefix| < |k| && prefix <= k && k[|prefix|]
  {
    if k in Entries(left) { KeysExtend(left, prefix + [false], k); assert k[|prefix|] == (prefix + [false])[|prefix|]; }
    if k in Entries(right) { KeysExtend(right, prefix + [true], k); assert k[|prefix|] == (prefix + [true])[|prefix|]; }
  }

  lemma {:induction false} SomeKey<V>(n: Node<V>, p: Bitstring) returns (k: Bitstring)
    requires Good(n, p)
    ensures k in Entries(n)
  {
    match n
    case Leaf(key, _) => k := key;
    case Internal(prefix, left, _, _) => k := SomeKey(left, prefix + [false]);
  }

  // ---- insertion ----

  /** Put a new leaf beside an existing subtree under their common prefix. */
  function Split<V>(key: Bitstring, value: V, other: Node<V>, common: nat): Node<V>
    requires common < |key|
  {
    var leaf := Leaf(key, value);
    if !key[common] then Join(key[..common], leaf, other) else Join(key[..common], other, leaf)
  }

  /** `insert_rec`.  The preconditions of the indexing are the `bit` assertions of
      the source: the structural invariant keeps them all in range. */
  function InsertRec<V>(n: Node<V>, key: Bitstring, value: V, ghost p: Bitstring): Node<V>
    requires |key| == KEY_BITS && p <= key
    requires n.Empty? || Good(n, p)
  {
    match n
    case Empty => Leaf(key, value)
    case Leaf(existing, _) =>
      if key == existing then Leaf(key, value)
      else
        var common := CommonLen(key, existing);
        Split(key, value, n, common)
    case Internal(prefix, left, right, _) =>
      var common := CommonLen(key, prefix);
      if common < |prefix| then
        Split(key, value, Join(prefix, left, right), common)
      else if !key[|prefix|] then
        Extension(key, prefix);
        Join(prefix, InsertRec(left, key, value, prefix + [false]), right)
      else
        Extension(key, prefix);
        Join(prefix, left, InsertRec(right, key, value, prefix + [true]))
  }

  lemma Extension(key: Bitstring, prefix: Bitstring)
    requires CommonLen(key, prefix) == |prefix| < |key|
    ensures prefix <= key && prefix + [key[|prefix|]] <= key
  {
  }

  /** The label of a node: the longest bit string that all its keys extend. */
  ghost function LabelOf<V>(n: Node<V>): Bitstring {
    match n
    case Empty => []
    case Leaf(key, _) => key
    case Internal(prefix, _, _, _) => prefix
  }

  lemma GoodAtLabel<V>(n: Node<V>, p: Bitstring)
    requires Good(n, p)
    ensures p <= LabelOf(n) && |LabelOf(n)| <= KEY_BITS
    ensures forall q | q <= LabelOf(n) :: Good(n, q)
  {
  }

  /** Where a key leaves a label: below their common prefix they take different sides. */
  lemma Diverges(key: Bitstring, q: Bitstring, p: Bitstring)
    requires p <= key && p <= q && CommonLen(key, q) < |q| <= |key|
    ensures var c := CommonLen(key, q);
            && p <= key[..c] && key[..c] == q[..c] && q[c] == !key[c]
            && key[..c] + [key[c]] <= key && key[..c] + [!key[c]] <= q
  {
    hide CommonLen;
    CommonLenAtLeast(key, q, p);
    var c := CommonLen(key, q);
    OneMore(key, c);
    OneMore(q, c);
    PrefixOfPrefix(p, key, c);
  }

  lemma OneMore(s: Bitstring, c: nat)
    requires c < |s|
    ensures s[..c] + [s[c]] <= s
  {
    hide *;
    assert s[..c] + [s[c]] == s[..c + 1];
  }

  lemma PrefixOfPrefix(p: Bitstring, s: Bitstring, c: nat)
    requires p <= s && |p| <= c <= |s|
    ensures p <= s[..c]
  {
    hide *;
  }

  lemma SplitGood<V>(key: Bitstring, value: V, other: Node<V>, p: Bitstring)
    requires |key| == KEY_BITS && p <= key && Good(other, p)
    requires CommonLen(key, LabelOf(other)) < |LabelOf(other)|
    ensures CommonLen(key, LabelOf(other)) < |key|
    ensures Good(Split(key, value, other, CommonLen(key, LabelOf(other))), p)
    ensures Entries(Split(key, value, other, CommonLen(key, LabelOf(other)))) == Entries(other)[key := value]
  {
    hide CommonLen;
    GoodAtLabel(other, p);
    Diverges(key, LabelOf(other), p);
    var c := CommonLen(key, LabelOf(other));
    var leaf := Leaf(key, value);
    KeySide(key[..c], if key[c] then other else leaf, if key[c] then leaf else other, key);
  }

  lemma CommonLenAtLeast(a: Bitstring, b: Bitstring, p: Bitstring)
    requires p <= a && p <= b
    ensures CommonLen(a, b) >= |p|
  {
  }

  /** Updating one side of an internal node updates the represented map. */
  lemma UpdateSide<V>(prefix: Bitstring, left: Node<V>, right: Node<V>, side: Node<V>, key: Bitstring, value: V)
    requires Good(left, prefix + [false]) && Good(right, prefix + [true]) && |prefix| < |key|
    requires Entries(side) == Entries(if key[|prefix|] then right else left)[key := value]
    ensures key[|prefix|] ==> Entries(left) + Entries(side) == (Entries(left) + Entries(right))[key := value]
    ensures !key[|prefix|] ==> Entries(side) + Entries(right) == (Entries(left) + Entries(right))[key := value]
  {
    KeySide(prefix, left, right, key);
  }

  /** Insertion keeps the structural invariant and updates the represented map. */
  lemma {:induction false} InsertCorrect<V>(n: Node<V>, key: Bitstring, value: V, p: Bitstring)
    requires |key| == KEY_BITS && p <= key
    requires n.Empty? || Good(n, p)
    ensures Good(InsertRec(n, key, value, p), p)
    ensures Entries(InsertRec(n, key, value, p)) == Entries(n)[key := value]
    decreases n
  {
    hide CommonLen, Split;
    match n
    case Empty =>
    case Leaf(existing, v) =>
      if key != existing {
        EqualLengthsDiffer(key, existing);
        SplitGood(key, value, n, p);
      }
    case Internal(prefix, left, right, _) =>
      if CommonLen(key, prefix) < |prefix| {
        SplitGood(key, value, n, p);
      } else {
        Extension(key, prefix);
        var side := if key[|prefix|] then right else left;
        InsertCorrect(side, key, value, prefix + [key[|prefix|]]);
        UpdateSide(prefix, left, right, InsertRec(side, key, value, prefix + [key[|prefix|]]), key, value);
      }
  }

  lemma EqualLengthsDiffer(a: Bitstring, b: Bitstring)
    requires |a| == |b| && a != b
    ensures CommonLen(a, b) < |a|
  {
  }

  // ---- canonicity ----

  /** Bit strings that share a prefix share its bits. */
  lemma SharedBit(j: Bitstring, k: Bitstring, q: Bitstring, i: nat)
    ensures q <= j && q <= k && i < |q| ==> j[i] == k[i]
  {
  }

  /** An internal node's prefix is no shorter than any label of all its keys. */
  lemma PrefixAtLeast<V>(a: Node<V>, b: Node<V>, p: Bitstring)
    requires Good(a, p) && Good(b, p) && a.Internal? && b.Internal? && Entries(a) == Entries(b)
    ensures |b.prefix| <= |a.prefix|
    ensures |b.prefix| == |a.prefix| ==> a.prefix == b.prefix
  {
    var k0 := SomeKey(a.left, a.prefix + [false]);
    var k1 := SomeKey(a.right, a.prefix + [true]);
    KeySide(a.prefix, a.left, a.right, k0);
    KeySide(a.prefix, a.left, a.right, k1);
    assert k0 in Entries(b) && k1 in Entries(b);
    KeySide(b.prefix, b.left, b.right, k0);
    KeySide(b.prefix, b.left, b.right, k1);
    SharedBit(k0, k1, b.prefix, |a.prefix|);
  }

  /** The represented map determines the tree. */
  lemma {:induction false} Canonical<V>(a: Node<V>, b: Node<V>, p: Bitstring)
    requires Good(a, p) && Good(b, p) && Entries(a) == Entries(b)
    ensures a == b
    decreases a
  {
    if a.Leaf? || b.Leaf? {
      SingleEntry(a, p);
      SingleEntry(b, p);
      var k := SomeKey(a, p);
    } else {
      PrefixAtLeast(a, b, p);
      PrefixAtLeast(b, a, p);
      var prefix := a.prefix;
      SideDetermined(prefix, a.left, a.right, b.left, b.right);
      Canonical(a.left, b.left, prefix + [false]);
      Canonical(a.right, b.right, prefix + [true]);
    }
  }

  /** The entries of each side are those whose key has the side's bit. */
  lemma SideDetermined<V>(prefix: Bitstring, l: Node<V>, r: Node<V>, l': Node<V>, r': Node<V>)
    requires Good(l, prefix + [false]) && Good(r, prefix + [true])
    requires Good(l', prefix + [false]) && Good(r', prefix + [true])
    requires Entries(l) + Entries(r) == Entries(l') + Entries(r')
    ensures Entries(l) == Entries(l') && Entries(r) == Entries(r')
  {
    hide Good, Entries;
    forall k
      ensures k in Entries(l) ==> k in Entries(l') && Entries(l)[k] == Entries(l')[k]
      ensures k in Entries(l') ==> k in Entries(l)
      ensures k in Entries(r) ==> k in Entries(r') && Entries(r)[k] == Entries(r')[k]
      ensures k in Entries(r') ==> k in Entries(r)
    {
      KeySide(prefix, l, r, k);
      KeySide(prefix, l', r', k);
      var m, m' := Entries(l) + Entries(r), Entries(l') + Entries(r');
      assert k in m <==> k in m';
      assert k in m ==> m[k] == m'[k];
    }
  }

  /** Only leaves represent a single entry. */
  lemma SingleEntry<V>(n: Node<V>, p: Bitstring)
    requires Good(n, p)
    ensures n.Leaf? <==> forall j, k | j in Entries(n) && k in Entries(n) :: j == k
  {
    if n.Internal? {
      var k0 := SomeKey(n.left, n.prefix + [false]);
      var k1 := SomeKey(n.right, n.prefix + [true]);
      KeySide(n.prefix, n.left, n.right, k0);
      KeySide(n.prefix, n.left, n.right, k1);
      assert k0 != k1 && k0 in Entries(n) && k1 in Entries(n);
    }
  }

  /** With ideal hashes the root hash determines the tree. */
  lemma {:induction false} HashDetermines<V>(a: Node<V>, b: Node<V>, p: Bitstring, q: Bitstring)
    requires Good(a, p) && Good(b, q) && NodeHash(a) == NodeHash(b)
    ensures a == b
    decreases a
  {
    if a.Internal? {
      HashDetermines(a.left, b.left, a.prefix + [false], b.prefix + [false]);
      HashDetermines(a.right, b.right, a.prefix + [true], b.prefix + [true]);
    }
  }

  /** Two trees have the same root hash exactly when they represent the same map. */
  lemma RootHashIsMap<V>(a: Node<V>, b: Node<V>)
    requires WellFormed(a) && WellFormed(b)
    ensures NodeHash(a) == NodeHash(b) <==> Entries(a) == Entries(b)
    ensures Entries(a) == Entries(b) ==> a == b
  {
    if !a.Empty? { var k := SomeKey(a, []); }
    if !b.Empty? { var k := SomeKey(b, []); }
    if !a.Empty? && !b.Empty? {
      if Entries(a) == Entries(b) { Canonical(a, b, []); }
      if NodeHash(a) == NodeHash(b) { HashDetermines(a, b, [], []); }
    }
  }

  // ---- lookup ----

  /** A sibling on the path: its label is the parent's prefix and its own bit. */
  datatype ProofNode<V> = ProofNode(sibling: Bitstring, hash: Digest<V>)

  /** `lookup_rec`, appending siblings to the proof from the root down. */
  function Lookup<V>(n: Node<V>, key: Bitstring, proof: seq<ProofNode<V>>, ghost p: Bitstring)
    : (bool, seq<ProofNode<V>>)
    requires |key| == KEY_BITS
    requires n.Empty? || Good(n, p)
  {
    match n
    case Empty => (false, proof)
    case Leaf(leafKey, _) => (key == leafKey, proof)
    case Internal(prefix, left, right, _) =>
      if !(prefix <= key) then (false, proof)
      else if !key[|prefix|] then
        Lookup(left, key, if right.Empty? then proof else proof + [ProofNode(prefix + [true], NodeHash(right))],
               prefix + [false])
      else
        Lookup(right, key, if left.Empty? then proof else proof + [ProofNode(prefix + [false], NodeHash(left))],
               prefix + [true])
  }

  /** Fold a hash with the proof from its last sibling up to its first. */
  function Fold<V>(h: Digest<V>, proof: seq<ProofNode<V>>): Digest<V>
    requires forall i | 0 <= i < |proof| :: proof[i].sibling != []
  {
    if proof == [] then h
    else
      var top := proof[0];
      var prefix, right := top.sibling[..|top.sibling| - 1], top.sibling[|top.sibling| - 1];
      var below := Fold(h, proof[1..]);
      if right then InternalDigest(prefix, below, top.hash) else InternalDigest(prefix, top.hash, below)
  }

  /** Where a lookup ends: at a leaf, or at the first prefix that the key leaves. */
  function StopNode<V>(n: Node<V>, key: Bitstring, ghost p: Bitstring): Node<V>
    requires |key| == KEY_BITS && Good(n, p)
  {
    match n
    case Leaf(_, _) => n
    case Internal(prefix, left, right, _) =>
      if !(prefix <= key) then n
      else if !key[|prefix|] then StopNode(left, key, prefix + [false])
      else StopNode(right, key, prefix + [true])
  }

  /** For every key, present or absent, the siblings fold the hash of the node where the
      lookup ends up to the root hash. */
  lemma {:induction false} LookupStops<V>(n: Node<V>, key: Bitstring, p: Bitstring, proof: seq<ProofNode<V>>)
    requires |key| == KEY_BITS && Good(n, p)
    ensures var out := Lookup(n, key, proof, p).1;
            && proof <= out
            && (forall i | |proof| <= i < |out| :: out[i].sibling != [])
            && Fold(NodeHash(StopNode(n, key, p)), out[|proof|..]) == NodeHash(n)
    decreases n
  {
    match n
    case Leaf(_, _) =>
    case Internal(prefix, left, right, _) =>
      if prefix <= key {
        var side, other := if !key[|prefix|] then left else right, if !key[|prefix|] then right else left;
        var node := ProofNode(prefix + [!key[|prefix|]], NodeHash(other));
        LookupStops(side, key, prefix + [key[|prefix|]], proof + [node]);
        var out := Lookup(n, key, proof, p).1;
        assert out == Lookup(side, key, proof + [node], prefix + [key[|prefix|]]).1;
        assert out[|proof|] == node && out[|proof|..][1..] == out[|proof + [node]|..];
        assert node.sibling[..|prefix|] == prefix;
      }
  }

  /** A lookup finds exactly the keys of the map: it ends at the leaf of the key, or at a
      node that the key is not under. */
  lemma {:induction false} LookupFinds<V>(n: Node<V>, key: Bitstring, p: Bitstring, proof: seq<ProofNode<V>>)
    requires |key| == KEY_BITS && Good(n, p)
    ensures Lookup(n, key, proof, p).0 <==> key in Entries(n)
    ensures key in Entries(n) ==> StopNode(n, key, p) == Leaf(key, Entries(n)[key])
    ensures key !in Entries(n) ==> !(LabelOf(StopNode(n, key, p)) <= key)
    decreases n
  {
    match n
    case Leaf(leafKey, _) => if leafKey <= key { assert leafKey == key; }
    case Internal(prefix, left, right, _) =>
      KeySide(prefix, left, right, key);
      if prefix <= key {
        var side, other := if !key[|prefix|] then left else right, if !key[|prefix|] then right else left;
        var node := ProofNode(prefix + [!key[|prefix|]], NodeHash(other));
        LookupFinds(side, key, prefix + [key[|prefix|]], proof + [node]);
      }
  }

  /** Lookup finds exactly the keys of the map, and for them the proof folds the leaf
      hash up to the root hash.  For any other key it folds the node where the key leaves
      the tree, which the proof does not name. */
  lemma LookupCorrect<V>(n: Node<V>, key: Bitstring, p: Bitstring, proof: seq<ProofNode<V>>)
    requires |key| == KEY_BITS && Good(n, p)
    ensures Lookup(n, key, proof, p).0 <==> key in Entries(n)
    ensures var out, stop := Lookup(n, key, proof, p).1, StopNode(n, key, p);
            && proof <= out
            && (forall i | |proof| <= i < |out| :: out[i].sibling != [])
            && Fold(NodeHash(stop), out[|proof|..]) == NodeHash(n)
            && (key in Entries(n) ==> NodeHash(stop) == LeafDigest(key, Entries(n)[key]))
            && (key !in Entries(n) ==> !(LabelOf(stop) <= key))
  {
    hide Lookup, StopNode, Entries, Fold;
    LookupStops(n, key, p, proof);
    LookupFinds(n, key, p, proof);
  }

  /** With ideal hashes, any proof that folds to the root hash proves membership. */
  lemma {:induction false} ProofBinds<V>(n: Node<V>, p: Bitstring, key: Bitstring, value: V, proof: seq<ProofNode<V>>)
    requires Good(n, p)
    requires forall i | 0 <= i < |proof| :: proof[i].sibling != []
    requires Fold(LeafDigest(key, value), proof) == NodeHash(n)
    ensures key in Entries(n) && Entries(n)[key] == value
    decreases |proof|
  {
    if proof != [] {
      var sibling := proof[0].sibling;
      if sibling[|sibling| - 1] {
        ProofBinds(n.left, n.prefix + [false], key, value, proof[1..]);
        KeySide(n.prefix, n.left, n.right, key);
      } else {
        ProofBinds(n.right, n.prefix + [true], key, value, proof[1..]);
      }
    }
  }

  /** `count_keys`. */
  function CountKeys<V>(n: Node<V>): nat {
    match n
    case Empty => 0
    case Leaf(_, _) => 1
    case Internal(_, left, right, _) => CountKeys(left) + CountKeys(right)
  }

  lemma {:induction false} CountIsSize<V>(n: Node<V>, p: Bitstring)
    requires Good(n, p)
    ensures CountKeys(n) == |Entries(n)|
  {
    match n
    case Leaf(_, _) =>
    case Internal(prefix, left, right, _) =>
      CountIsSize(left, prefix + [false]);
      CountIsSize(right, prefix + [true]);
      forall k
        ensures !(k in Entries(left) && k in Entries(right))
      {
        KeySide(prefix, left, right, k);
      }
      assert Entries(n).Keys == Entries(left).Keys + Entries(right).Keys;
      assert Entries(left).Keys !! Entries(right).Keys;
  }

  // ---- sequences of insertions ----

  ghost predicate FullKeys<V>(kvs: seq<(Bitstring, V)>) { forall i | 0 <= i < |kvs| :: |kvs[i].0| == KEY_BITS }

  /** The map after a sequence of insertions and overwrites. */
  function FinalMap<V>(kvs: seq<(Bitstring, V)>): map<Bitstring, V> {
    if kvs == [] then map[]
    else var last := kvs[|kvs| - 1]; FinalMap(kvs[..|kvs| - 1])[last.0 := last.1]
  }

  /** The tree after the same sequence. */
  function InsertAll<V>(kvs: seq<(Bitstring, V)>): (root: Node<V>)
    requires FullKeys(kvs)
    ensures WellFormed(root) && Entries(root) == FinalMap(kvs)
  {
    if kvs == [] then Empty
    else
      var last, before := kvs[|kvs| - 1], InsertAll(kvs[..|kvs| - 1]);
      InsertCorrect(before, last.0, last.1, []);
      InsertRec(before, last.0, last.1, [])
  }

  /** Neither the order of insertions nor overwritten values leave a trace. */
  lemma OrderIrrelevant<V>(a: seq<(Bitstring, V)>, b: seq<(Bitstring, V)>)
    requires FullKeys(a) && FullKeys(b)
    ensures FinalMap(a) == FinalMap(b) <==> InsertAll(a) == InsertAll(b)
    ensures FinalMap(a) == FinalMap(b) <==> NodeHash(InsertAll(a)) == NodeHash(InsertAll(b))
  {
    RootHashIsMap(InsertAll(a), InsertAll(b));
  }

  lemma EmptyEntries<V>()
    ensures WellFormed<V>(Empty) && Entries<V>(Empty) == map[]
  {
  }

  /** Rebuilding from a map, in any order, as after a restart (src/vindex/mod.rs:372-376). */
  method Rebuild<V>(m: map<Bitstring, V>) returns (root: Node<V>)
    requires forall k | k in m :: |k| == KEY_BITS
    ensures WellFormed(root) && Entries(root) == m
  {
    root := Empty;
    var todo := m;
    EmptyEntries<V>();
    SplitsStart(m);
    hide Entries, WellFormed, Good, Splits;
    while todo != map[]
      invariant WellFormed(root) && Splits(m, Entries(root), todo)
      decreases |todo|
    {
      var k :| k in todo;
      MovePair(m, Entries(root), todo, k);
      root := Put(root, k, todo[k]);
      todo := todo - {k};
    }
    SplitsEnd(m, Entries(root), todo);
  }

  method Put<V>(root: Node<V>, key: Bitstring, value: V) returns (root': Node<V>)
    requires WellFormed(root) && |key| == KEY_BITS
    ensures WellFormed(root') && Entries(root') == Entries(root)[key := value]
  {
    InsertCorrect(root, key, value, []);
    root' := InsertRec(root, key, value, []);
  }
}

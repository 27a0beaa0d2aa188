/** The prefix tree as it is stored (src/vindex/prefix_tree.rs:211-466): nodes carry
    byte labels, and hashes are taken over their bytes.

    `Meaning` reads a stored tree as the tree over bit strings of `PrefixTrees`.
    Insertion and lookup on bytes refine those on bits, every label stays canonical,
    and so the root hash over bytes is a function of the map, and determines it. */
module ByteTrees {
  import opened Labels
  import opened PrefixTrees
  import V = Vindex
  import W = Wal
  import Rfc6962

  /** Ideal hashes of what the source feeds to SHA-256: the bytes of a leaf's key and its
      value; the bit length and bytes of a prefix and the children's hashes. */
  datatype ByteDigest<T> =
    | ZeroBytes
    | LeafBytes(bytes: seq<bv8>, value: T)
    | InternalBytes(bitLen: nat, bytes: seq<bv8>, left: ByteDigest<T>, right: ByteDigest<T>)

  datatype ByteNode<T> =
    | EmptyNode
    | LeafNode(key: Label, value: T)
    | InternalNode(prefix: Label, left: ByteNode<T>, right: ByteNode<T>, hash: ByteDigest<T>)

  /** `Node::hash`. */
  function HashOf<T>(n: ByteNode<T>): ByteDigest<T> {
    match n
    case EmptyNode => ZeroBytes
    case LeafNode(key, value) => LeafBytes(key.bytes, value)
    case InternalNode(_, _, _, hash) => hash
  }

  /** `compute_internal_hash` and the node around it. */
  function JoinNodes<T>(prefix: Label, left: ByteNode<T>, right: ByteNode<T>): ByteNode<T> {
    InternalNode(prefix, left, right, InternalBytes(prefix.bitLen, prefix.bytes, HashOf(left), HashOf(right)))
  }

  // ---- meaning ----

  ghost predicate FullKey(l: Label) { Clean(l) && l.bitLen == KEY_BITS }

  /** All labels are canonical, keys are full, and cached hashes are of labels and
      children. */
  ghost predicate CanonicalTree<T>(n: ByteNode<T>) {
    match n
    case EmptyNode => true
    case LeafNode(key, _) => FullKey(key)
    case InternalNode(prefix, left, right, _) =>
      && Clean(prefix) && CanonicalTree(left) && CanonicalTree(right)
      && n == JoinNodes(prefix, left, right)
  }

  ghost function Meaning<T>(n: ByteNode<T>): Node<T>
    requires CanonicalTree(n)
  {
    match n
    case EmptyNode => Empty
    case LeafNode(key, value) => Leaf(Bits(key), value)
    case InternalNode(prefix, left, right, _) => Join(Bits(prefix), Meaning(left), Meaning(right))
  }

  /** The bit-level tree and its labels determine the stored one. */
  lemma {:induction false} MeaningInjective<T>(a: ByteNode<T>, b: ByteNode<T>)
    requires CanonicalTree(a) && CanonicalTree(b) && Meaning(a) == Meaning(b)
    ensures a == b
    decreases a
  {
    hide Bits, PaddingClear;
    match a {
      case EmptyNode =>
      case LeafNode(key, _) => BitsInjective(key, b.key);
      case InternalNode(prefix, left, right, _) =>
        BitsInjective(prefix, b.prefix);
        MeaningInjective(left, b.left);
        MeaningInjective(right, b.right);
    }
  }

  /** Equal hashes over bytes mean equal stored trees. */
  lemma {:induction false} ByteHashDetermines<T>(a: ByteNode<T>, b: ByteNode<T>)
    requires CanonicalTree(a) && CanonicalTree(b) && HashOf(a) == HashOf(b)
    ensures a == b
    decreases a
  {
    hide PaddingClear;
    match a {
      case EmptyNode =>
      case LeafNode(key, _) => assert key == Label(key.bytes, KEY_BITS) && b.key == Label(b.key.bytes, KEY_BITS);
      case InternalNode(prefix, left, right, _) =>
        assert prefix == Label(prefix.bytes, prefix.bitLen) && b.prefix == Label(b.prefix.bytes, b.prefix.bitLen);
        ByteHashDetermines(left, b.left);
        ByteHashDetermines(right, b.right);
    }
  }

  /** The root hash over bytes is a function of the represented map, and determines it. */
  lemma ByteRootHashIsMap<T>(a: ByteNode<T>, b: ByteNode<T>)
    requires CanonicalTree(a) && CanonicalTree(b) && WellFormed(Meaning(a)) && WellFormed(Meaning(b))
    ensures HashOf(a) == HashOf(b) <==> Entries(Meaning(a)) == Entries(Meaning(b))
    ensures Entries(Meaning(a)) == Entries(Meaning(b)) ==> a == b
  {
    hide CanonicalTree, Entries, WellFormed, Meaning;
    if HashOf(a) == HashOf(b) { ByteHashDetermines(a, b); }
    if Entries(Meaning(a)) == Entries(Meaning(b)) {
      RootHashIsMap(Meaning(a), Meaning(b));
      MeaningInjective(a, b);
    }
  }

  // ---- insertion ----

  /** A new leaf beside an existing subtree, under the first `common` bits of a label. */
  method SplitNode<T>(at: Label, common: nat, key: Label, value: T, other: ByteNode<T>) returns (n: ByteNode<T>)
    requires Clean(at) && FullKey(key) && CanonicalTree(other)
    requires common < key.bitLen && common < at.bitLen && Bits(at)[..common] == Bits(key)[..common]
    ensures CanonicalTree(n) && Meaning(n) == Split(Bits(key), value, Meaning(other), common)
  {
    hide PaddingClear, Bit;
    PrefixBits(at, common);
    var prefix, leaf := Prefix(at, common), LeafNode(key, value);
    assert BitAt(key, common) == Bits(key)[common];
    n := if !BitAt(key, common) then JoinNodes(prefix, leaf, other) else JoinNodes(prefix, other, leaf);
  }

  /** `insert_rec` on byte labels: every `bit` call is in range, every label stays
      canonical, and the bits of the result are those of the insertion on bits. */
  method InsertBytes<T>(n: ByteNode<T>, key: Label, value: T, ghost p: Bitstring) returns (n': ByteNode<T>)
    requires CanonicalTree(n) && FullKey(key) && p <= Bits(key)
    requires n.EmptyNode? || Good(Meaning(n), p)
    ensures CanonicalTree(n') && Meaning(n') == InsertRec(Meaning(n), Bits(key), value, p)
    decreases n
  {
    hide PaddingClear, Bits, CommonLen;
    match n {
      case EmptyNode => n' := LeafNode(key, value);
      case LeafNode(existing, _) =>
        if key == existing {
          n' := LeafNode(key, value);
        } else {
          if Bits(key) == Bits(existing) { BitsInjective(key, existing); }
          EqualLengthsDiffer(Bits(key), Bits(existing));
          var common := CommonPrefixLen(key, existing);
          n' := SplitNode(key, common, key, value, n);
        }
      case InternalNode(prefix, left, right, _) =>
        var common := CommonPrefixLen(key, prefix);
        if common < prefix.bitLen {
          n' := SplitNode(prefix, common, key, value, JoinNodes(prefix, left, right));
        } else {
          Extension(Bits(key), Bits(prefix));
          KeyBit(key, prefix.bitLen);
          if !BitAt(key, prefix.bitLen) {
            var left' := InsertBytes(left, key, value, Bits(prefix) + [false]);
            n' := JoinNodes(prefix, left', right);
          } else {
            var right' := InsertBytes(right, key, value, Bits(prefix) + [true]);
            n' := JoinNodes(prefix, left, right');
          }
        }
    }
  }

  lemma KeyBit(key: Label, i: nat)
    requires Valid(key) && i < key.bitLen
    ensures i < 8 * |key.bytes| && BitAt(key, i) == Bits(key)[i]
  {
  }

  // ---- lookup ----

  /** A proof node: the label of the sibling in bytes, and its hash. */
  datatype ByteProofNode<T> = ByteProofNode(labelBitLen: nat, labelPath: seq<bv8>, hash: ByteDigest<T>)

  function LabelIn<T>(q: ByteProofNode<T>): Label { Label(q.labelPath, q.labelBitLen) }

  /** All labels of the proof are canonical and not empty. */
  ghost predicate ProofOk<T>(proof: seq<ByteProofNode<T>>) {
    forall i | 0 <= i < |proof| :: Clean(LabelIn(proof[i])) && proof[i].labelBitLen > 0
  }

  /** What a client computes from a hash and a proof: the last bit of a sibling's label says
      which side it is on, the rest is the parent's prefix. */
  ghost function FoldBytes<T>(h: ByteDigest<T>, proof: seq<ByteProofNode<T>>): ByteDigest<T>
    requires ProofOk(proof)
  {
    if proof == [] then h
    else
      var top, below := proof[0], FoldBytes(h, proof[1..]);
      assert Clean(LabelIn(top)) && top.labelBitLen > 0;
      var n := top.labelBitLen - 1;
      var prefix := Prefix(LabelIn(top), n);
      if BitAt(LabelIn(top), n) then InternalBytes(prefix.bitLen, prefix.bytes, below, top.hash)
      else InternalBytes(prefix.bitLen, prefix.bytes, top.hash, below)
  }

  /** The sibling label made by `append_bit` leads back to the parent's prefix. */
  lemma SiblingLabel(prefix: Label, bit: bool)
    requires Clean(prefix)
    ensures var at := AppendBit(prefix, bit);
            && Clean(at) && at.bitLen == prefix.bitLen + 1
            && Prefix(at, prefix.bitLen) == prefix && prefix.bitLen < 8 * |at.bytes| && BitAt(at, prefix.bitLen) == bit
  {
    hide Bits, PaddingClear;
    AppendBitBits(prefix, bit);
    var at := AppendBit(prefix, bit);
    PrefixBits(at, prefix.bitLen);
    KeyBit(at, prefix.bitLen);
    assert Bits(at)[..prefix.bitLen] == Bits(prefix);
    BitsInjective(Prefix(at, prefix.bitLen), prefix);
  }

  /** With ideal hashes, any proof in bytes that folds to the root hash proves membership. */
  lemma {:induction false} ByteProofBinds<T>(n: ByteNode<T>, p: Bitstring, key: Label, value: T, proof: seq<ByteProofNode<T>>)
    requires CanonicalTree(n) && Good(Meaning(n), p) && FullKey(key) && ProofOk(proof)
    requires FoldBytes(LeafBytes(key.bytes, value), proof) == HashOf(n)
    ensures Bits(key) in Entries(Meaning(n)) && Entries(Meaning(n))[Bits(key)] == value
    decreases |proof|
  {
    hide Bits, PaddingClear, Prefix, BitAt;
    if proof == [] {
      assert n.key == Label(n.key.bytes, KEY_BITS) && key == Label(key.bytes, KEY_BITS);
    } else {
      assert n.InternalNode?;
      var left, right := n.left, n.right;
      KeySide(Bits(n.prefix), Meaning(left), Meaning(right), Bits(key));
      if BitAt(LabelIn(proof[0]), proof[0].labelBitLen - 1) {
        ByteProofBinds(left, Bits(n.prefix) + [false], key, value, proof[1..]);
      } else {
        ByteProofBinds(right, Bits(n.prefix) + [true], key, value, proof[1..]);
      }
    }
  }

  /** The proof nodes name these subtrees, with canonical labels. */
  ghost predicate Names<T>(proof: seq<ByteProofNode<T>>, siblings: seq<(Label, ByteNode<T>)>) {
    && |proof| == |siblings|
    && forall i | 0 <= i < |proof| ::
         && LabelIn(proof[i]) == siblings[i].0 && Clean(siblings[i].0)
         && CanonicalTree(siblings[i].1) && proof[i].hash == HashOf(siblings[i].1)
  }

  /** The same proof over bit strings. */
  ghost function ProofMeaning<T>(siblings: seq<(Label, ByteNode<T>)>): (proof: seq<ProofNode<T>>)
    requires forall i | 0 <= i < |siblings| :: Clean(siblings[i].0) && CanonicalTree(siblings[i].1)
    ensures |proof| == |siblings|
  {
    if siblings == [] then []
    else
      var last := siblings[|siblings| - 1];
      assert Clean(last.0) && CanonicalTree(last.1);
      ProofMeaning(siblings[..|siblings| - 1]) + [ProofNode(Bits(last.0), NodeHash(Meaning(last.1)))]
  }

  lemma ProofPush<T>(proof: seq<ByteProofNode<T>>, siblings: seq<(Label, ByteNode<T>)>, at: Label, node: ByteNode<T>)
    requires Names(proof, siblings) && Clean(at) && CanonicalTree(node)
    ensures var q := ByteProofNode(at.bitLen, at.bytes, HashOf(node));
            Names(proof + [q], siblings + [(at, node)])
    ensures ProofMeaning(siblings + [(at, node)])
            == ProofMeaning(siblings) + [ProofNode(Bits(at), NodeHash(Meaning(node)))]
  {
    hide PaddingClear, CanonicalTree;
    assert (siblings + [(at, node)])[..|siblings|] == siblings;
  }

  /** `lookup_rec` on byte labels: the same answer, and the same siblings with their
      labels in bytes. */
  method LookupBytes<T>(n: ByteNode<T>, key: Label, proof: seq<ByteProofNode<T>>, ghost p: Bitstring,
                        ghost siblings: seq<(Label, ByteNode<T>)>)
    returns (found: bool, proof': seq<ByteProofNode<T>>, ghost siblings': seq<(Label, ByteNode<T>)>,
             ghost stop: ByteNode<T>)
    requires CanonicalTree(n) && FullKey(key) && Names(proof, siblings)
    requires n.EmptyNode? || Good(Meaning(n), p)
    ensures Names(proof', siblings')
    ensures proof <= proof' && ProofOk(proof'[|proof|..])
    ensures FoldBytes(HashOf(stop), proof'[|proof|..]) == HashOf(n)
    ensures CanonicalTree(stop) && (!n.EmptyNode? ==> Meaning(stop) == StopNode(Meaning(n), Bits(key), p))
    ensures (found, ProofMeaning(siblings')) == Lookup(Meaning(n), Bits(key), ProofMeaning(siblings), p)
    decreases n
  {
    hide PaddingClear, Bits, Names, FoldBytes, ProofOk, AppendBit, IsPrefixOf, ProofMeaning, BitAt;
    found, proof', siblings', stop := false, proof, siblings, n;
    assert proof[|proof|..] == [];
    FoldNothing(HashOf(n));
    NamesCanonical(proof, siblings);
    match n {
      case EmptyNode =>
      case LeafNode(leafKey, _) =>
        if Bits(key) == Bits(leafKey) { BitsInjective(key, leafKey); }
        found := key == leafKey;
      case InternalNode(prefix, left, right, _) =>
        IsPrefixOfBits(prefix, key);
        if IsPrefixOf(prefix, key) {
          KeyBit(key, prefix.bitLen);
          var bit := BitAt(key, prefix.bitLen);
          var side, other := if bit then right else left, if bit then left else right;
          AppendBitBits(prefix, !bit);
          var at := AppendBit(prefix, !bit);
          ProofPush(proof, siblings, at, other);
          var node := ByteProofNode(at.bitLen, at.bytes, HashOf(other));
          var more := if other.EmptyNode? then [] else [node];
          found, proof', siblings', stop :=
            LookupBytes(side, key, proof + more, Bits(prefix) + [bit], siblings + [(at, other)]);
          FoldOneMore(prefix, bit, left, right, proof'[|proof + [node]|..], HashOf(stop));
          assert proof'[|proof|..] == [node] + proof'[|proof + [node]|..];
        }
    }
  }

  lemma FoldNothing<T>(h: ByteDigest<T>)
    ensures ProofOk<T>([]) && FoldBytes(h, []) == h
  {
  }

  lemma FoldOneMore<T>(prefix: Label, bit: bool, left: ByteNode<T>, right: ByteNode<T>, rest: seq<ByteProofNode<T>>,
                       h: ByteDigest<T>)
    requires Clean(prefix) && ProofOk(rest)
    requires FoldBytes(h, rest) == HashOf(if bit then right else left)
    ensures var at := AppendBit(prefix, !bit);
            var node := ByteProofNode(at.bitLen, at.bytes, HashOf(if bit then left else right));
            ProofOk([node] + rest) && FoldBytes(h, [node] + rest) == HashOf(JoinNodes(prefix, left, right))
  {
    hide PaddingClear, AppendBit, Prefix, BitAt;
    SiblingLabel(prefix, !bit);
    var at := AppendBit(prefix, !bit);
    var node := ByteProofNode(at.bitLen, at.bytes, HashOf(if bit then left else right));
    assert LabelIn(node) == at && ([node] + rest)[1..] == rest;
  }

  lemma NamesCanonical<T>(proof: seq<ByteProofNode<T>>, siblings: seq<(Label, ByteNode<T>)>)
    requires Names(proof, siblings)
    ensures forall i | 0 <= i < |siblings| :: Clean(siblings[i].0) && CanonicalTree(siblings[i].1)
  {
  }

  // ---- keys ----

  /** The byte with these bits, most significant first. */
  function ByteOf(s: Bitstring): bv8
    requires |s| == 8
  {
    (if s[0] then 0x80 else 0) | (if s[1] then 0x40 else 0) | (if s[2] then 0x20 else 0) | (if s[3] then 0x10 else 0)
    | (if s[4] then 0x08 else 0) | (if s[5] then 0x04 else 0) | (if s[6] then 0x02 else 0) | (if s[7] then 0x01 else 0)
  }

  lemma ByteOfBits(s: Bitstring, k: nat)
    requires |s| == 8 && k < 8
    ensures Bit(ByteOf(s), k) == s[k]
  {
  }

  /** `Label::from_key`. */
  function FromKey(key: W.IndexKey): (l: Label)
    ensures Valid(l) && l.bitLen == KEY_BITS
  {
    Label(seq(32, i requires 0 <= i < 32 => ByteOf(V.LowBits(key[i], 8))), KEY_BITS)
  }

  /** The label of a key has the bits that the index files the key under. */
  lemma FromKeyBits(key: W.IndexKey)
    ensures FullKey(FromKey(key)) && Bits(FromKey(key)) == V.KeyBits(key)
  {
    hide Bit, V.LowBits, ByteOf;
    var l := FromKey(key);
    forall i | 0 <= i < KEY_BITS
      ensures BitAt(l, i) == V.KeyBits(key)[i]
    {
      ByteOfBits(V.LowBits(key[i / 8], 8), i % 8);
      KeyBitsAt(key, i);
    }
  }

  lemma {:induction false} KeyBitsAt(k: seq<Rfc6962.byte>, i: nat)
    requires i < 8 * |k|
    ensures V.KeyBits(k)[i] == V.LowBits(k[i / 8], 8)[i % 8]
    decreases |k|
  {
    hide V.LowBits;
    var n := |k| - 1;
    if i < 8 * n { KeyBitsAt(k[..n], i); }
  }

  /** The stored tree (src/vindex/prefix_tree.rs:255-281). */
  class StoredTree<T(==)> {
    var root: ByteNode<T>

    ghost predicate Valid()
      reads this
    {
      CanonicalTree(root) && WellFormed(Meaning(root))
    }

    constructor ()
      ensures Valid() && Entries(Meaning(root)) == map[]
    {
      root := EmptyNode;
    }

    /** `insert`. */
    method Insert(key: W.IndexKey, value: T)
      requires Valid()
      modifies this
      ensures Valid() && Entries(Meaning(root)) == old(Entries(Meaning(root)))[V.KeyBits(key) := value]
    {
      hide CanonicalTree, Bits, PaddingClear, Entries;
      FromKeyBits(key);
      InsertCorrect(Meaning(root), V.KeyBits(key), value, []);
      MeaningEmpty(root);
      root := InsertBytes(root, FromKey(key), value, []);
    }

    /** `lookup`: found exactly for the keys of the map; for these the returned proof folds
        the hash of the leaf, taken over the bytes of the key, to the root hash. */
    method Find(key: W.IndexKey) returns (found: bool, proof: seq<ByteProofNode<T>>)
      requires Valid()
      ensures found <==> V.KeyBits(key) in Entries(Meaning(root))
      ensures ProofOk(proof)
      ensures found ==>
                FoldBytes(LeafBytes(FromKey(key).bytes, Entries(Meaning(root))[V.KeyBits(key)]), proof) == HashOf(root)
    {
      hide CanonicalTree, Bits, PaddingClear, Entries;
      FromKeyBits(key);
      MeaningEmpty(root);
      ghost var siblings, stop;
      found, proof, siblings, stop := LookupBytes(root, FromKey(key), [], [], []);
      assert proof[0..] == proof;
      if root.EmptyNode? {
        NoEntries<T>();
      } else {
        LookupFinds(Meaning(root), V.KeyBits(key), [], []);
        if found { LeafHash(stop, FromKey(key), Entries(Meaning(root))[V.KeyBits(key)]); }
      }
    }
  }

  lemma LeafHash<T>(stop: ByteNode<T>, key: Label, value: T)
    requires CanonicalTree(stop) && FullKey(key) && Meaning(stop) == Leaf(Bits(key), value)
    ensures HashOf(stop) == LeafBytes(key.bytes, value)
  {
    hide Bits, PaddingClear;
    BitsInjective(stop.key, key);
  }

  lemma NoEntries<T>()
    ensures Entries<T>(Empty) == map[]
  {
  }

  lemma MeaningEmpty<T>(n: ByteNode<T>)
    requires CanonicalTree(n)
    ensures n.EmptyNode? <==> Meaning(n).Empty?
  {
  }
}

/** Proof generation from stored tiles (src/merkle/proof.rs).

    Each method is proved against RFC 6962: the ghost `log` is the leaf sequence
    that the store authenticates.  Whatever tiles are missing, a result is right or
    the error says that something was not found; nothing is missing from a store that
    holds the tree. */
module ProofGeneration {
  import opened Bits
  import opened Rfc6962
  import opened Tiles
  import opened Wrappers

  datatype ReadError = NotFound | EmptySubtree | OldAfterNew | IndexOutsideTree

  /** What is stored is authentic for the log, and the log has n leaves. */
  ghost predicate Genuine(store: Store, log: seq<Hash>, n: nat) {
    Authentic(store, log) && n <= |log|
  }

  /** The store holds the tree over the first n leaves of the log. */
  ghost predicate Stored(store: Store, log: seq<Hash>, n: nat) {
    Genuine(store, log, n) && Covers(store, n)
  }

  /** One bottom-row hash of a stored tile. */
  lemma StoredNode(store: Store, log: seq<Hash>, n: nat, level: nat, i: nat)
    requires Genuine(store, log, n) && i < SizeAt(level, n)
    ensures SizeAt(level, n) <= SizeAt(level, |log|)
    ensures var p := PathAt(level, i / 256, n);
            && (p in store ==> i % 256 < |store[p]| && store[p][i % 256] == Subtree(log, 8 * level, i))
            && (Covers(store, n) ==> p in store)
  {
    var index := i / 256;
    ShrMonotone(n, |log|, 8 * level);
    assert InTree(level, index, n);
    WidthIsCount(level, index, n);
    var p := PathAt(level, index, n);
    assert p in store ==> AuthenticTile(store[p], level, index, Width(p.partial), log);
    assert i == 256 * index + i % 256;
  }

  /** `read_leaf_hash`. */
  method ReadLeafHash(store: Store, index: nat, n: nat, ghost log: seq<Hash>) returns (r: Result<Hash, ReadError>)
    requires index < n
    ensures Genuine(store, log, n) && r.Ok? ==> r.value == log[index]
    ensures Stored(store, log, n) ==> r.Ok?
    ensures r.Err? ==> r.error == NotFound
  {
    if Genuine(store, log, n) { StoredNode(store, log, n, 0, index); }
    var tileIndex, offset := index / 256, index % 256;
    var tileStart := tileIndex * 256;
    assert n <= I64_MAX ==> tileStart + 256 < U64_LIMIT;
    var partial := if tileStart + 256 > n then Min(n - tileStart, 255) else 0;
    var path := TilePath(0, tileIndex, partial);
    assert path == PathAt(0, tileIndex, n);
    if path !in store { return Err(NotFound); }
    if offset >= |store[path]| { return Err(NotFound); }
    return Ok(store[path][offset]);
  }

  /** One row of a complete subtree: width nodes of a level, starting at an index. */
  ghost predicate IsRow(nodes: seq<Hash>, log: seq<Hash>, level: nat, first: nat) {
    && first + |nodes| <= Shr(|log|, level)
    && forall j | 0 <= j < |nodes| :: nodes[j] == Subtree(log, level, first + j)
  }

  /** Hashing the nodes of a row in pairs gives the row above. */
  method PairUp(nodes: seq<Hash>, ghost log: seq<Hash>, ghost level: nat, ghost first: nat)
    returns (parents: seq<Hash>)
    requires |nodes| % 2 == 0
    ensures |parents| == |nodes| / 2
    ensures IsRow(nodes, log, level, 2 * first) ==> IsRow(parents, log, level + 1, first)
  {
    parents := [];
    for i := 0 to |nodes| / 2
      invariant |parents| == i
      invariant forall j | 0 <= j < i :: parents[j] == Node(nodes[2 * j], nodes[2 * j + 1])
    {
      parents := parents + [Node(nodes[2 * i], nodes[2 * i + 1])];
    }
  }

  lemma MultipleInTile(i: nat, w: nat)
    requires w in {1, 2, 4, 8, 16, 32, 64, 128}
    ensures (i * w) % 256 + w <= 256
  {
    var k := (i * w) / 256;
    if w == 2 { assert (i * 2) % 256 == 2 * (i - 128 * k); }
    else if w == 4 { assert (i * 4) % 256 == 4 * (i - 64 * k); }
    else if w == 8 { assert (i * 8) % 256 == 8 * (i - 32 * k); }
    else if w == 16 { assert (i * 16) % 256 == 16 * (i - 16 * k); }
    else if w == 32 { assert (i * 32) % 256 == 32 * (i - 8 * k); }
    else if w == 64 { assert (i * 64) % 256 == 64 * (i - 4 * k); }
    else if w == 128 { assert (i * 128) % 256 == 128 * (i - 2 * k); }
  }

  /** Where `try_read_tile_hash` finds the bottom row of a subtree: in one tile. */
  lemma RowInTile(index: nat, row: nat, size: nat)
    requires row < 8 && index < Shr(size, row)
    ensures Shl(index, row) % 256 + Pow2(row) <= 256
    ensures Shl(index, row) + Pow2(row) <= size
  {
    SubtreeInRange(size, row, index);
    ShlIsMul(index, row);
    RowWidths(row);
    MultipleInTile(index, Pow2(row));
  }

  lemma RowWidths(row: nat)
    requires row < 8
    ensures Pow2(row) in {1, 2, 4, 8, 16, 32, 64, 128}
  {
    assert Pow2(1) == 2 && Pow2(2) == 4 && Pow2(3) == 8 && Pow2(4) == 16;
    assert Pow2(5) == 32 && Pow2(6) == 64 && Pow2(7) == 128;
  }

  lemma {:induction false} ShlIsMul(i: nat, l: nat)
    ensures Shl(i, l) == i * Pow2(l)
    decreases l
  {
    if l > 0 { ShlIsMul(2 * i, l - 1); assert (2 * i) * Pow2(l - 1) == i * (2 * Pow2(l - 1)); }
  }

  /** `try_read_tile_hash`: fold a slice of a bottom row up to the subtree root. */
  method TryReadTileHash(store: Store, level: nat, index: nat, n: nat, ghost log: seq<Hash>)
    returns (r: Result<Hash, ReadError>)
    ensures Genuine(store, log, n) && index < Shr(n, level) && index < Shr(|log|, level) && r.Ok?
            ==> r.value == Subtree(log, level, index)
    ensures Stored(store, log, n) && index < Shr(n, level) ==> r.Ok?
    ensures r.Err? ==> r.error == NotFound
  {
    hide Stored, Genuine, PartialTileSize, Subtree;
    StoredGenuine(store, log, n);
    var tileLevel, row := level / 8, level % 8;
    var width, bottom := Pow2(row), Shl(index, row);
    var tileIndex, offset := bottom / 256, bottom % 256;
    var path := PathAt(tileLevel, tileIndex, n);
    ghost var ok := Genuine(store, log, n) && index < Shr(n, level);
    if ok { BottomRowStored(store, log, n, level, index); }
    if path !in store || |store[path]| < offset + width { return Err(NotFound); }
    var nodes := store[path][offset..offset + width];
    ghost var up := 0;
    while |nodes| > 1
      invariant up <= row && |nodes| == Pow2(row - up)
      invariant ok ==> IsRow(nodes, log, 8 * tileLevel + up, Shl(index, row - up))
    {
      assert Shl(index, row - up) == 2 * Shl(index, row - up - 1) by { ShlDouble(index, row - up - 1); }
      nodes := PairUp(nodes, log, 8 * tileLevel + up, Shl(index, row - up - 1));
      up := up + 1;
    }
    assert Pow2(row - up) == 1;
    return Ok(nodes[0]);
  }

  lemma {:induction false} ShlDouble(i: nat, l: nat)
    ensures Shl(i, l + 1) == 2 * Shl(i, l)
    decreases l
  {
    if l > 0 { ShlDouble(2 * i, l - 1); }
  }

  lemma BottomRowStored(store: Store, log: seq<Hash>, n: nat, level: nat, index: nat)
    requires Genuine(store, log, n) && index < Shr(n, level)
    ensures var tl, row := level / 8, level % 8;
            var bottom, width := Shl(index, row), Pow2(row);
            var path := PathAt(tl, bottom / 256, n);
            && (Covers(store, n) ==> path in store)
            && (path in store ==>
                  && bottom % 256 + width <= |store[path]|
                  && IsRow(store[path][bottom % 256..bottom % 256 + width], log, 8 * tl, bottom))
  {
    hide Genuine, Covers, Subtree, Shl, Pow2;
    var tl, row := level / 8, level % 8;
    var bottom, width := Shl(index, row), Pow2(row);
    ShrAdd(n, 8 * tl, row);
    RowInTile(index, row, SizeAt(tl, n));
    var path, offset := PathAt(tl, bottom / 256, n), bottom % 256;
    StoredNode(store, log, n, tl, bottom + width - 1);
    assert (bottom + width - 1) / 256 == bottom / 256;
    if path in store {
      var nodes := store[path][offset..offset + width];
      forall j | 0 <= j < |nodes|
        ensures nodes[j] == Subtree(log, 8 * tl, bottom + j)
      {
        StoredNode(store, log, n, tl, bottom + j);
        assert (bottom + j) / 256 == bottom / 256 && (bottom + j) % 256 == offset + j;
      }
    }
  }

  /** `compute_subtree_hash`: MTH of any non-empty range of a stored tree. */
  method ComputeSubtreeHash(store: Store, start: nat, end: nat, n: nat, ghost log: seq<Hash>)
    returns (r: Result<Hash, ReadError>)
    requires start <= end <= n
    ensures start == end ==> r == Err(EmptySubtree)
    ensures start < end && Genuine(store, log, n) && r.Ok? ==> r.value == Mth(log[start..end])
    ensures start < end && Stored(store, log, n) ==> r.Ok?
    ensures start < end && r.Err? ==> r.error == NotFound
    decreases end - start
  {
    hide Mth, Authentic, Covers;
    var count := end - start;
    if count == 0 { return Err(EmptySubtree); }
    if count == 1 {
      r := ReadLeafHash(store, start, n, log);
      if start < |log| { MthSingle(log, start); }
      return;
    }
    if IsPow2(count) && start % count == 0 {
      var level := BitLength(count) - 1;
      if Genuine(store, log, n) { AlignedRange(log, start, level, n); }
      r := TryReadTileHash(store, level, Shr(start, level), n, log);
      return;
    }
    SplitPointBounds(count);
    var k := SplitPoint(count);
    var left := ComputeSubtreeHash(store, start, start + k, n, log);
    if left.Err? { return left; }
    var right := ComputeSubtreeHash(store, start + k, end, n, log);
    if right.Err? { return right; }
    if Genuine(store, log, n) { RangeSplit(log, start, end, BitLength(count - 1) - 1); }
    return Ok(Node(left.value, right.value));
  }

  /** An aligned range of 2^level leaves is a complete subtree. */
  lemma AlignedRange(log: seq<Hash>, start: nat, level: nat, n: nat)
    requires start % Pow2(level) == 0 && start + Pow2(level) <= n <= |log|
    ensures Shr(start, level) < Shr(n, level) <= Shr(|log|, level)
    ensures Subtree(log, level, Shr(start, level)) == Mth(log[start..start + Pow2(level)])
  {
    hide Mth;
    ShrMonotone(n, |log|, level);
    MultipleIsShl(start, level);
    ShlSucc(Shr(start, level), level);
    InRangeSubtree(n, level, Shr(start, level));
    SubtreeIsMth(log, level, Shr(start, level));
  }

  lemma MultipleIsShl(x: nat, l: nat)
    requires x % Pow2(l) == 0
    ensures Shl(Shr(x, l), l) == x
  {
    var q := x / Pow2(l);
    assert x == q * Pow2(l);
    ShlIsMul(q, l);
    ShrOfShl(q, l);
  }

  // ---- consistency proofs ----

  /** `path_idx ^ 1`. */
  function Sibling(index: nat): (other: nat)
    ensures other != index && other / 2 == index / 2
  {
    if index % 2 == 0 then index + 1 else index - 1
  }

  /** `path_siblings`: for a power of two it produces SUBPROOF, bottom up. */
  method PathSiblings(store: Store, n: nat, startLevel: nat, ghost log: seq<Hash>)
    returns (r: Result<seq<Hash>, ReadError>)
    requires Pow2(startLevel) <= n <= I64_MAX
    ensures Genuine(store, log, n) && r.Ok? ==> r.value == SubProof(Pow2(startLevel), log[..n], true)
    ensures Stored(store, log, n) ==> r.Ok?
    ensures r.Err? ==> r.error == NotFound
  {
    hide Mth, Stored, Genuine, Pow2, SubProof;
    var siblings, level, pathIdx := [], startLevel, 0;
    ghost var m := Pow2(startLevel);
    if Genuine(store, log, n) { GenuineSize(store, log, n); SubProofWhole(m, log); }
    StoredGenuine(store, log, n);
    ShiftFits(startLevel, n);
    while Pow2(level) < n
      invariant m <= Pow2(level) < U64_LIMIT && level < 64 && pathIdx == 0
      invariant Genuine(store, log, n) ==> siblings == SubProof(m, log[..Min(Pow2(level), n)], true)
      decreases n - Pow2(level)
    {
      var subtreeSize := Pow2(level);
      var siblingIdx := Sibling(pathIdx);
      var siblingStart := siblingIdx * subtreeSize;
      NextShiftFits(level, n);
      assert siblingStart == subtreeSize;
      assert siblingStart < U64_LIMIT && siblingStart + subtreeSize < U64_LIMIT;
      if siblingStart < n {
        var siblingEnd := Min(siblingStart + subtreeSize, n);
        var hash := ComputeSubtreeHash(store, siblingStart, siblingEnd, n, log);
        if hash.Err? { return Err(hash.error); }
        if Genuine(store, log, n) { SpineStep(m, log, level, siblingEnd); }
        siblings := siblings + [hash.value];
      }
      level, pathIdx := level + 1, pathIdx / 2;
    }
    return Ok(siblings);
  }

  /** The loop never shifts by 64 or more: it stops at the first power of two that is
      not below n. */
  lemma ShiftFits(level: nat, n: nat)
    requires n <= I64_MAX && Pow2(level) <= 2 * n
    ensures level < 64 && Pow2(level) < U64_LIMIT
  {
    Pow2Of63();
    if level >= 64 { Pow2Monotone(64, level); }
  }

  lemma GenuineSize(store: Store, log: seq<Hash>, n: nat)
    requires Genuine(store, log, n)
    ensures n <= |log|
  {
  }

  lemma StoredGenuine(store: Store, log: seq<Hash>, n: nat)
    ensures Stored(store, log, n) <==> Genuine(store, log, n) && Covers(store, n)
  {
  }

  lemma SubProofWhole(m: nat, log: seq<Hash>)
    requires 0 < m <= |log|
    ensures SubProof(m, log[..m], true) == []
  {
  }

  lemma NextShiftFits(level: nat, n: nat)
    requires n <= I64_MAX && Pow2(level) < n
    ensures level + 1 < 64 && Pow2(level + 1) == 2 * Pow2(level) < U64_LIMIT
  {
    assert Pow2(level + 1) == 2 * Pow2(level);
    ShiftFits(level + 1, n);
  }

  /** Above 2^63 leaves the loop would get to a shift by 64. */
  lemma ShiftExact(n: nat)
    requires 2 <= n < U64_LIMIT
    ensures Pow2(BitLength(n - 1) - 1) < n <= Pow2(BitLength(n - 1))
    ensures BitLength(n - 1) < 64 <==> n <= I64_MAX + 1
  {
    BitLengthBounds(n - 1);
    Pow2Of63();
    if BitLength(n - 1) >= 64 { Pow2Monotone(64, BitLength(n - 1)); Pow2Monotone(63, BitLength(n - 1) - 1); }
    else { Pow2Monotone(BitLength(n - 1), 63); }
  }

  lemma SpineStep(m: nat, log: seq<Hash>, level: nat, end: nat)
    requires 0 < m <= Pow2(level) < end <= 2 * Pow2(level) && end <= |log|
    ensures SubProof(m, log[..end], true)
            == SubProof(m, log[..Pow2(level)], true) + [Mth(log[Pow2(level)..end])]
  {
    hide Mth;
    SplitPointUnique(end, level);
    assert log[..end][..Pow2(level)] == log[..Pow2(level)];
    assert log[..end][Pow2(level)..] == log[Pow2(level)..end];
  }

  /** `subproof`: returns MTH of the range and appends SUBPROOF to the proof. */
  method GenerateSubproof(store: Store, m: nat, n: nat, base: nat, treeSize: nat, complete: bool,
                          proof: seq<Hash>, ghost log: seq<Hash>)
    returns (r: Result<Hash, ReadError>, proof': seq<Hash>)
    requires 0 < m <= n && base + n <= treeSize
    ensures Genuine(store, log, treeSize) && r.Ok? ==>
              && r.value == Mth(log[base..base + n])
              && proof' == proof + SubProof(m, log[base..base + n], complete)
    ensures Stored(store, log, treeSize) ==> r.Ok?
    ensures r.Err? ==> r.error == NotFound
    decreases n
  {
    hide Mth, Authentic, Covers, SplitPoint, BitLength, Pow2;
    proof' := proof;
    if m == n {
      r := ComputeSubtreeHash(store, base, base + m, treeSize, log);
      if r.Ok? && !complete { proof' := proof + [r.value]; }
      return;
    }
    SplitPointBounds(n);
    var k := SplitPoint(n);
    if Genuine(store, log, treeSize) { SubrangeSplit(log, base, n); }
    if m <= k {
      r, proof' := GenerateSubproof(store, m, k, base, treeSize, complete, proof, log);
      if r.Err? { return; }
      var right := ComputeSubtreeHash(store, base + k, base + n, treeSize, log);
      if right.Err? { return right, proof'; }
      return Ok(Node(r.value, right.value)), proof' + [right.value];
    } else {
      var left := ComputeSubtreeHash(store, base, base + k, treeSize, log);
      if left.Err? { return left, proof; }
      r, proof' := GenerateSubproof(store, m - k, n - k, base + k, treeSize, false, proof, log);
      if r.Err? { return; }
      return Ok(Node(left.value, r.value)), proof' + [left.value];
    }
  }

  lemma SubrangeSplit(log: seq<Hash>, base: nat, n: nat)
    requires n >= 2 && base + n <= |log|
    ensures 0 < SplitPoint(n) < n
    ensures var s, k := log[base..base + n], SplitPoint(n);
            && s[..k] == log[base..base + k] && s[k..] == log[base + k..base + n]
            && Mth(s) == Node(Mth(s[..k]), Mth(s[k..]))
  {
    SplitPointBounds(n);
  }

  /** `generate_consistency_proof_simple` with `proof_nodes`. */
  method GenerateConsistencyProof(store: Store, oldSize: nat, newSize: nat, ghost log: seq<Hash>)
    returns (r: Result<seq<Hash>, ReadError>)
    requires newSize <= I64_MAX
    ensures oldSize > newSize ==> r == Err(OldAfterNew)
    ensures oldSize <= newSize && Genuine(store, log, newSize) && r.Ok?
            ==> r.value == ConsistencyProof(oldSize, log[..newSize])
    ensures oldSize <= newSize && Stored(store, log, newSize) ==> r.Ok?
    ensures oldSize <= newSize && r.Err? ==> r.error == NotFound
  {
    hide Mth, Authentic, Covers, SubProof;
    if oldSize == 0 || oldSize == newSize { return Ok([]); }
    if oldSize > newSize { return Err(OldAfterNew); }
    if IsPow2(oldSize) {
      r := PathSiblings(store, newSize, BitLength(oldSize) - 1, log);
    } else {
      var hash, proof := GenerateSubproof(store, oldSize, newSize, 0, newSize, true, [], log);
      if newSize <= |log| { assert log[0..0 + newSize] == log[..newSize]; }
      if hash.Err? { return Err(hash.error); }
      if Genuine(store, log, newSize) {
        assert [] + SubProof(oldSize, log[..newSize], true) == SubProof(oldSize, log[..newSize], true);
      }
      return Ok(proof);
    }
  }

  // ---- inclusion proofs ----

  /** Hashes of the collected sibling ranges, deepest first. */
  ghost function SiblingHashes(log: seq<Hash>, ranges: seq<(nat, nat)>): seq<Hash>
    requires forall r | r in ranges :: r.0 <= r.1 <= |log|
  {
    if ranges == [] then []
    else
      var last := ranges[|ranges| - 1];
      [Mth(log[last.0..last.1])] + SiblingHashes(log, ranges[..|ranges| - 1])
  }

  /** The top-down split loop collects the sibling ranges of PATH, root first. */
  method SplitRanges(index: nat, n: nat, ghost log: seq<Hash>) returns (siblings: seq<(nat, nat)>)
    requires index < n
    ensures forall s | s in siblings :: s.0 < s.1 <= n
    ensures n <= |log| ==> Path(index, log[..n]) == SiblingHashes(log, siblings)
  {
    hide Mth, Path, SplitPoint, BitLength, Pow2, SiblingHashes;
    siblings := [];
    var start: nat, end: nat := 0, n;
    if n <= |log| { PathEnds(log, index, n); }
    while end - start > 1
      invariant start <= index < end <= n
      invariant forall s | s in siblings :: s.0 < s.1 <= n
      invariant n <= |log| ==>
                  Path(index, log[..n]) == Path(index - start, log[start..end]) + SiblingHashes(log, siblings)
      decreases end - start
    {
      SplitPointBounds(end - start);
      var split := start + SplitPoint(end - start);
      var sibling: (nat, nat) := if index < split then (split, end) else (start, split);
      if n <= |log| {
        PathStep(log, index - start, start, end);
        SiblingPush(log, siblings, sibling);
      }
      siblings := siblings + [sibling];
      if index < split { end := split; } else { start := split; }
    }
    if n <= |log| { PathEnds(log, index, n); }
  }

  lemma PathEnds(log: seq<Hash>, index: nat, n: nat)
    requires index < n <= |log|
    ensures log[0..n] == log[..n] && SiblingHashes(log, []) == []
    ensures Path(index, log[..n]) + [] == Path(index, log[..n])
    ensures Path(0, log[index..index + 1]) == []
    ensures forall s: seq<Hash> :: [] + s == s
  {
  }

  lemma SiblingPush(log: seq<Hash>, siblings: seq<(nat, nat)>, s: (nat, nat))
    requires s.0 <= s.1 <= |log| && forall r | r in siblings :: r.0 <= r.1 <= |log|
    ensures forall p: seq<Hash> ::
              p + SiblingHashes(log, siblings + [s]) == (p + [Mth(log[s.0..s.1])]) + SiblingHashes(log, siblings)
  {
  }

  lemma PathStep(log: seq<Hash>, i: nat, start: nat, end: nat)
    requires start + 2 <= end <= |log| && i < end - start
    ensures 0 < SplitPoint(end - start) < end - start
    ensures var split := start + SplitPoint(end - start);
            Path(i, log[start..end]) ==
              if start + i < split then Path(i, log[start..split]) + [Mth(log[split..end])]
              else Path(start + i - split, log[split..end]) + [Mth(log[start..split])]
  {
    hide Mth;
    SplitPointBounds(end - start);
    SubrangeSplit(log, start, end - start);
  }

  /** `generate_inclusion_proof`: the collected ranges, hashed in reverse, are PATH. */
  method GenerateInclusionProof(store: Store, index: nat, n: nat, ghost log: seq<Hash>)
    returns (r: Result<seq<Hash>, ReadError>)
    ensures index >= n ==> r == Err(IndexOutsideTree)
    ensures index < n && Genuine(store, log, n) && r.Ok? ==> r.value == Path(index, log[..n])
    ensures index < n && Stored(store, log, n) ==> r.Ok?
    ensures index < n && r.Err? ==> r.error == NotFound
  {
    hide Mth, Path, Authentic, Covers;
    if index >= n { return Err(IndexOutsideTree); }
    var siblings := SplitRanges(index, n, log);
    var proof := [];
    var i := |siblings|;
    ghost var genuine := Genuine(store, log, n);
    assert siblings[..i] == siblings;
    while i > 0
      invariant 0 <= i <= |siblings|
      invariant genuine ==> SiblingHashes(log, siblings) == proof + SiblingHashes(log, siblings[..i])
    {
      i := i - 1;
      assert siblings[..i + 1][..i] == siblings[..i];
      var (s, e) := siblings[i];
      assert siblings[i] in siblings;
      var hash := ComputeSubtreeHash(store, s, e, n, log);
      if hash.Err? { return Err(hash.error); }
      proof := proof + [hash.value];
    }
    assert siblings[..0] == [] && proof + [] == proof;
    return Ok(proof);
  }
}

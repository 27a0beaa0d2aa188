/** Inclusion verification (section 2.1.1 of RFC 6962) and what it adds to
    consistency: a new root whose new leaves are all proved included is the MTH
    of the old leaves followed by the new ones.  The monitoring witness relies on
    this (src/monitor/mod.rs:149-207, src/client.rs:86-104). */
module Inclusion {
  import opened Bits
  import opened Rfc6962
  import opened Consistency

  function PathLength(m: nat, n: nat): nat
    requires m < n
    decreases n
  {
    if n == 1 then 0
    else
      SplitPointBounds(n);
      var k := SplitPoint(n);
      1 + if m < k then PathLength(m, k) else PathLength(m - k, n - k)
  }

  /** The root that a leaf and an inclusion path determine. */
  function PathRoot(leaf: Hash, m: nat, n: nat, p: seq<Hash>): Hash
    requires m < n && |p| == PathLength(m, n)
    decreases n
  {
    if n == 1 then leaf
    else
      SplitPointBounds(n);
      var k := SplitPoint(n);
      var init, last := p[..|p| - 1], p[|p| - 1];
      if m < k then Node(PathRoot(leaf, m, k, init), last)
      else Node(last, PathRoot(leaf, m - k, n - k, init))
  }

  /** Ideal inclusion verification. */
  predicate VerifiesInclusion(leaf: Hash, m: nat, n: nat, p: seq<Hash>, root: Hash) {
    m < n && |p| == PathLength(m, n) && PathRoot(leaf, m, n, p) == root
  }

  lemma {:induction false} PathHasLength(m: nat, d: seq<Hash>)
    requires m < |d|
    ensures |Path(m, d)| == PathLength(m, |d|)
    decreases |d|
  {
    hide SplitPoint, Mth;
    if |d| > 1 {
      SplitPointBounds(|d|);
      var k := SplitPoint(|d|);
      if m < k { PathHasLength(m, d[..k]); } else { PathHasLength(m - k, d[k..]); }
    }
  }

  /** Against MTH(D), only the leaf at the index with its PATH verifies. */
  lemma {:induction false} InclusionExact(d: seq<Hash>, m: nat, leaf: Hash, p: seq<Hash>)
    requires m < |d|
    ensures VerifiesInclusion(leaf, m, |d|, p, Mth(d)) <==> leaf == d[m] && p == Path(m, d)
    decreases |d|
  {
    hide SplitPoint, BitLength, Pow2;
    PathHasLength(m, d);
    if |d| > 1 && |p| == PathLength(m, |d|) {
      SplitPointBounds(|d|);
      var k := SplitPoint(|d|);
      var init, last := p[..|p| - 1], p[|p| - 1];
      assert p == init + [last];
      if m < k {
        InclusionExact(d[..k], m, leaf, init);
        ConcatLast(init, last, Path(m, d[..k]), Mth(d[k..]));
      } else {
        InclusionExact(d[k..], m - k, leaf, init);
        ConcatLast(init, last, Path(m - k, d[k..]), Mth(d[..k]));
      }
    }
  }

  // ---- authenticated extension ----

  ghost predicate Included(leaf: Hash, m: nat, n: nat, root: Hash) {
    exists p :: VerifiesInclusion(leaf, m, n, p, root)
  }

  /** All leaves from an index on are proved included under the root. */
  ghost predicate AllIncluded(d: seq<Hash>, from: nat, root: Hash) {
    forall i: nat | from <= i < |d| :: Included(d[i], i, |d|, root)
  }

  /** Inclusion under a node is inclusion under one of its children. */
  lemma IncludedSplits(leaf: Hash, m: nat, n: nat, root: Hash)
    requires n >= 2 && m < n && Included(leaf, m, n, root)
    ensures 0 < SplitPoint(n) < n
    ensures root.Node?
    ensures var k := SplitPoint(n);
            if m < k then Included(leaf, m, k, root.left) else Included(leaf, m - k, n - k, root.right)
  {
    SplitPointBounds(n);
    hide SplitPoint, BitLength, Pow2, IsPow2;
    var k := SplitPoint(n);
    var p :| VerifiesInclusion(leaf, m, n, p, root);
    var init := p[..|p| - 1];
    if m < k { assert VerifiesInclusion(leaf, m, k, init, root.left); }
    else { assert VerifiesInclusion(leaf, m - k, n - k, init, root.right); }
  }

  lemma AllIncludedSplits(d: seq<Hash>, from: nat, root: Hash)
    requires |d| >= 2 && from < |d| && AllIncluded(d, from, root)
    ensures 0 < SplitPoint(|d|) < |d| && root.Node?
    ensures var k := SplitPoint(|d|);
            && (from <= k ==> AllIncluded(d[..k], from, root.left))
            && AllIncluded(d[k..], if from <= k then 0 else from - k, root.right)
  {
    hide SplitPoint, VerifiesInclusion, Included;
    IncludedSplits(d[from], from, |d|, root);
    var k := SplitPoint(|d|);
    forall i: nat | from <= i < k
      ensures Included(d[..k][i], i, k, root.left)
    {
      IncludedSplits(d[i], i, |d|, root);
    }
    var from' := if from <= k then 0 else from - k;
    forall i: nat | from' <= i < |d| - k
      ensures Included(d[k..][i], i, |d| - k, root.right)
    {
      IncludedSplits(d[k + i], k + i, |d|, root);
    }
  }

  /** If every leaf is proved included, the root is the MTH of the leaves. */
  lemma {:induction false} AuthenticatedTree(d: seq<Hash>, root: Hash)
    requires |d| > 0 && AllIncluded(d, 0, root)
    ensures root == Mth(d)
    decreases |d|
  {
    if |d| == 1 {
      assert Included(d[0], 0, 1, root);
    } else {
      AllIncludedSplits(d, 0, root);
      var k := SplitPoint(|d|);
      AuthenticatedTree(d[..k], root.left);
      AuthenticatedTree(d[k..], root.right);
    }
  }

  lemma {:induction false} RebuildExtends(m: nat, d: seq<Hash>, p: seq<Hash>)
    requires 0 < m <= |d| && |p| == SubproofLength(m, |d|, false)
    requires Rebuild(m, |d|, p).0 == Mth(d[..m])
    requires AllIncluded(d, m, Rebuild(m, |d|, p).1)
    ensures Rebuild(m, |d|, p).1 == Mth(d)
    decreases |d|
  {
    hide BitLength, Pow2, AllIncluded;
    if m == |d| {
      assert d[..m] == d;
    } else {
      var root := Rebuild(m, |d|, p).1;
      AllIncludedSplits(d, m, root);
      SplitPointBounds(|d|);
      var k := SplitPoint(|d|);
      var init := p[..|p| - 1];
      if m <= k {
        assert d[..k][..m] == d[..m];
        RebuildExtends(m, d[..k], init);
        AuthenticatedTree(d[k..], root.right);
      } else {
        PrefixAcrossSplit(d, m, k);
        RebuildExtends(m - k, d[k..], init);
      }
    }
  }

  lemma {:induction false} SpineExtends(m: nat, d: seq<Hash>, p: seq<Hash>)
    requires 0 < m <= |d| && IsPow2(m) && |p| == SubproofLength(m, |d|, true)
    requires AllIncluded(d, m, Spine(Mth(d[..m]), p))
    ensures Spine(Mth(d[..m]), p) == Mth(d)
    decreases |d|
  {
    hide BitLength, Pow2, AllIncluded, IsPow2;
    if m == |d| {
      assert d[..m] == d;
    } else {
      var root := Spine(Mth(d[..m]), p);
      AllIncludedSplits(d, m, root);
      SplitPointBounds(|d|);
      var k := SplitPoint(|d|);
      if m > k { Pow2Apart(m, k); }
      assert d[..k][..m] == d[..m];
      SpineExtends(m, d[..k], p[..|p| - 1]);
      AuthenticatedTree(d[k..], root.right);
    }
  }

  /** A consistent new root under which all new leaves are proved included is the
      MTH of all leaves. */
  lemma AuthenticatedExtension(m: nat, d: seq<Hash>, root: Hash, p: seq<Hash>)
    requires m <= |d| && Accepts(m, |d|, Mth(d[..m]), root, p)
    requires AllIncluded(d, m, root)
    ensures root == Mth(d)
  {
    hide AllIncluded;
    if m == |d| {
      assert d[..m] == d;
    } else if m == 0 {
      AuthenticatedTree(d, root);
    } else if IsPow2(m) {
      Pow2Length(m, |d|);
      SpineExtends(m, d, p);
    } else {
      RebuildExtends(m, d, p);
    }
  }
}

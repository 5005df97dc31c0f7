// The files of a bulk-loaded B+tree: a chain of leaves and the separator keys of its directory.
module BulkLoad {
  import opened Arithmetic
  import opened TupleOrder

  datatype Leaf = Leaf(tuples: seq<Tuple>, next: nat)
  datatype DirKey = DirKey(key: Tuple, leaf: nat)

  function LeafTuples(leaves: seq<Leaf>): (r: seq<Tuple>) {
    if leaves == [] then [] else LeafTuples(leaves[..|leaves| - 1]) + leaves[|leaves| - 1].tuples
  }

  // Leaves that are all full and each point at the following one.
  ghost predicate FullLeaves(leaves: seq<Leaf>, max: nat) {
    forall k :: 0 <= k < |leaves| ==> |leaves[k].tuples| == max && leaves[k].next == k + 1
  }

  // The directory has one key for each leaf but the first: that leaf's first tuple.
  ghost predicate DirectoryOf(dir: seq<DirKey>, leaves: seq<Leaf>) {
    && (forall k :: 0 <= k < |leaves| ==> leaves[k].tuples != [])
    && |dir| == (if leaves == [] then 0 else |leaves| - 1)
    && forall k :: 0 < k < |leaves| ==> dir[k - 1] == DirKey(leaves[k].tuples[0], k)
  }

  // Every leaf but the last is full and points at the following one; the last is not empty.
  ghost predicate TreeOf(leaves: seq<Leaf>, dir: seq<DirKey>, tuples: seq<Tuple>, max: nat) {
    && LeafTuples(leaves) == tuples
    && DirectoryOf(dir, leaves)
    && (leaves != [] ==>
          && FullLeaves(leaves[..|leaves| - 1], max)
          && |leaves[|leaves| - 1].tuples| <= max)
  }

  // The chain of leaves ends at the last leaf, as readers of the tree expect.
  ghost predicate ChainEnds(leaves: seq<Leaf>) {
    leaves != [] && leaves[|leaves| - 1].next == 0
  }

  lemma {:induction false} FullLeavesSize(leaves: seq<Leaf>, max: nat)
    requires FullLeaves(leaves, max)
    ensures |LeafTuples(leaves)| == |leaves| * max
  {
    if leaves != [] {
      FullLeavesSize(leaves[..|leaves| - 1], max);
      assert |leaves| * max == (|leaves| - 1) * max + max;
    }
  }

  lemma LeafTuplesSnoc(leaves: seq<Leaf>, leaf: Leaf)
    ensures LeafTuples(leaves + [leaf]) == LeafTuples(leaves) + leaf.tuples
  {
    assert (leaves + [leaf])[..|leaves|] == leaves;
  }

  // Up to the last pointer, a tree is determined by its tuples and the leaf capacity.
  lemma {:induction false} TreeUnique(a: seq<Leaf>, aDir: seq<DirKey>, b: seq<Leaf>, bDir: seq<DirKey>,
                                      tuples: seq<Tuple>, max: nat)
    requires max > 0 && TreeOf(a, aDir, tuples, max) && TreeOf(b, bDir, tuples, max)
    ensures |a| == |b| && aDir == bDir
    ensures forall k :: 0 <= k < |a| ==> a[k].tuples == b[k].tuples
    ensures forall k :: 0 <= k < |a| - 1 ==> a[k].next == b[k].next
  {
    assert a != [] ==> LeafTuples(a) != [];
    assert b != [] ==> LeafTuples(b) != [];
    if a != [] {
      var a0, b0 := a[..|a| - 1], b[..|b| - 1];
      FullLeavesSize(a0, max);
      FullLeavesSize(b0, max);
      LeafCount(|a0|, |a[|a| - 1].tuples|, |b0|, |b[|b| - 1].tuples|, max);
      assert LeafTuples(a0) == tuples[..|a0| * max] == LeafTuples(b0);
      FullLeavesUnique(a0, b0, max);
      assert a[|a| - 1].tuples == b[|b| - 1].tuples;
      assert forall k :: 0 <= k < |a| - 1 ==> a[k] == a0[k] && b[k] == b0[k];
      forall k | 0 <= k < |aDir| ensures aDir[k] == bDir[k] {
        assert aDir[k] == DirKey(a[k + 1].tuples[0], k + 1);
      }
    }
  }

  lemma LeafCount(m: nat, x: nat, n: nat, y: nat, max: nat)
    requires 0 < x <= max && 0 < y <= max && m * max + x == n * max + y
    ensures m == n && x == y
  {
    if m < n {
      MulGap(m, n, max);
    } else if n < m {
      MulGap(n, m, max);
    }
  }

  lemma {:induction false} FullLeavesUnique(a: seq<Leaf>, b: seq<Leaf>, max: nat)
    requires |a| == |b| && FullLeaves(a, max) && FullLeaves(b, max)
    requires LeafTuples(a) == LeafTuples(b)
    ensures a == b
  {
    if a != [] {
      LastLeaf(a, max);
      LastLeaf(b, max);
      hide LeafTuples, FullLeaves;
      FullLeavesUnique(a[..|a| - 1], b[..|b| - 1], max);
      assert a == a[..|a| - 1] + [a[|a| - 1]] && b == b[..|b| - 1] + [b[|b| - 1]];
    }
  }

  lemma LastLeaf(a: seq<Leaf>, max: nat)
    requires FullLeaves(a, max) && a != []
    ensures FullLeaves(a[..|a| - 1], max) && 0 <= (|a| - 1) * max <= |LeafTuples(a)|
    ensures LeafTuples(a[..|a| - 1]) == LeafTuples(a)[..(|a| - 1) * max]
    ensures a[|a| - 1] == Leaf(LeafTuples(a)[(|a| - 1) * max..], |a|)
  {
    FullLeavesSize(a[..|a| - 1], max);
  }

  // In a tree over increasing tuples each key separates the leaf it names from the one before.
  lemma DirectorySeparates(leaves: seq<Leaf>, dir: seq<DirKey>, tuples: seq<Tuple>, max: nat, k: nat, i: nat, j: nat)
    requires TreeOf(leaves, dir, tuples, max) && StrictlyIncreasing(tuples)
    requires 0 < k < |leaves| && i < |leaves[k - 1].tuples| && j < |leaves[k].tuples|
    ensures Less(leaves[k - 1].tuples[i], dir[k - 1].key)
    ensures AtMost(dir[k - 1].key, leaves[k].tuples[j])
  {
    LeafTuplesPrefix(leaves, k + 1);
    var before := LeafTuples(leaves[..k - 1]);
    assert leaves[..k + 1][..k] == leaves[..k] && leaves[..k][..k - 1] == leaves[..k - 1];
    assert LeafTuples(leaves[..k + 1]) == before + leaves[k - 1].tuples + leaves[k].tuples;
    var at := |before| + |leaves[k - 1].tuples|;
    assert tuples[|before| + i] == leaves[k - 1].tuples[i];
    assert tuples[at] == leaves[k].tuples[0] && tuples[at + j] == leaves[k].tuples[j];
  }

  lemma {:induction false} LeafTuplesPrefix(leaves: seq<Leaf>, n: nat)
    requires n <= |leaves|
    ensures LeafTuples(leaves[..n]) <= LeafTuples(leaves)
    decreases |leaves| - n
  {
    if n == |leaves| {
      assert leaves[..n] == leaves;
    } else {
      LeafTuplesPrefix(leaves, n + 1);
      assert leaves[..n + 1][..n] == leaves[..n];
    }
  }
}

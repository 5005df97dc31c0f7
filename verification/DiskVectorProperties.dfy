// What the bulk-loaded indexes promise, whichever way they were built.
module DiskVectorProperties {
  import opened TupleOrder
  import opened BulkLoad
  import opened Permutations
  import opened RowSets
  import opened Merger
  import opened DiskVector

  // The merge loses rows in one case only: when every row is the all-ones record.
  lemma MergeEmitsIndex(rows: seq<Tuple>, arity: nat)
    requires rows != [] && Records(rows, arity)
    ensures Emitted(Sort(rows), arity) == Index(rows) <==> exists t :: t in rows && t != Impossible(arity)
    ensures forall t :: t in rows ==>
              (t == Impossible(arity) <==> forall c :: 0 <= c < |t| ==> t[c] == 0xFFFF_FFFF_FFFF_FFFF)
  {
    var s, top := Sort(rows), Impossible(arity);
    SortSorts(rows);
    SameMultisetSameRows(s, rows);
    IndexMeaning(rows);
    assert rows[0] in rows && rows[0] in Index(rows);
    assert s[0] in rows;
    if s[0] == top {
      forall t | t in rows ensures t == top {
        var k :| 0 <= k < |s| && s[k] == t;
        assert AtMost(s[0], s[k]);
        ImpossibleIsGreatest(t, arity);
        AtMostAntisymmetric(t, top);
      }
    }
  }

  // The leaf chain of a merged index is broken exactly if the greatest row occurs more than once
  // and the distinct rows fill their leaves.
  lemma GreatestRepeats(rows: seq<Tuple>)
    ensures RepeatsLast(Sort(rows)) <==>
            exists t :: t in rows && multiset(rows)[t] > 1 && forall u :: u in rows ==> AtMost(u, t)
  {
    hide AtMost, Sort;
    var s := Sort(rows);
    SortSorts(rows);
    SameMultisetSameRows(s, rows);
    if RepeatsLast(s) {
      var t := s[|s| - 1];
      CountAtEnds(s, |s| - 2, |s| - 1);
      LastIsGreatest(s);
      assert t in rows && multiset(rows)[t] > 1;
    }
    if t :| t in rows && multiset(rows)[t] > 1 && forall u :: u in rows ==> AtMost(u, t) {
      NoRepeatsBelow(s, t);
    }
  }

  lemma LastIsGreatest(s: seq<Tuple>)
    requires Sorted(s) && s != []
    ensures forall u :: u in s ==> AtMost(u, s[|s| - 1])
  {}

  lemma CountAtEnds(s: seq<Tuple>, i: nat, j: nat)
    requires i < j < |s| && s[i] == s[j]
    ensures multiset(s)[s[i]] > 1
  {
    assert s == s[..i] + [s[i]] + s[i + 1..j] + [s[j]] + s[j + 1..];
  }

  // A greatest row that occurs twice takes the last two places.
  lemma NoRepeatsBelow(s: seq<Tuple>, t: Tuple)
    requires Sorted(s) && multiset(s)[t] > 1 && forall u :: u in s ==> AtMost(u, t)
    ensures RepeatsLast(s)
  {
    var low, high := TwoPlaces(s, t);
    hide AtMost;
    forall i | |s| - 2 <= i < |s| ensures s[i] == t {
      assert low <= i && s[i] in s;
      assert low < i ==> AtMost(s[low], s[i]);
      if s[i] != t {
        AtMostAntisymmetric(s[i], t);
      }
    }
  }

  lemma TwoPlaces(s: seq<Tuple>, t: Tuple) returns (i: nat, j: nat)
    requires multiset(s)[t] > 1
    ensures i < j < |s| && s[i] == s[j] == t
  {
    assert t in s;
    i :| 0 <= i < |s| && s[i] == t;
    var rest := s[..i] + s[i + 1..];
    assert s == s[..i] + [t] + s[i + 1..];
    assert multiset(s) == multiset(rest) + multiset{t};
    assert t in rest;
    var k :| 0 <= k < |rest| && rest[k] == t;
    j := if k < i then k else k + 1;
    assert s[j] == t && i != j by {
      assert rest[k] == if k < i then s[k] else s[k + 1];
    }
    if j < i {
      i, j := j, i;
    }
  }

  // Building an index in memory or by merging, with buffers of any size, gives the same tree,
  // but for the last pointer of a broken chain and for inputs of all-ones records only.
  lemma BufferSizeIrrelevant(a: Outcome, b: Outcome, rows: seq<Tuple>, arity: nat, max: nat,
                             inMemoryA: bool, inMemoryB: bool)
    requires max > 0 && Records(rows, arity) && exists t :: t in rows && t != Impossible(arity)
    requires Loaded(a, rows, arity, max, inMemoryA) && Loaded(b, rows, arity, max, inMemoryB)
    ensures a.processed == b.processed == Index(rows) && a.dir == b.dir && |a.leaves| == |b.leaves|
    ensures forall k :: 0 <= k < |a.leaves| ==> a.leaves[k].tuples == b.leaves[k].tuples
    ensures forall k :: 0 <= k < |a.leaves| - 1 ==> a.leaves[k].next == b.leaves[k].next
    ensures !(FillsLeaves(|Index(rows)|, max) && RepeatsLast(Sort(rows))) ==> a == b
  {
    hide Index, Emitted, TreeOf;
    MergeEmitsIndex(rows, arity);
    IndexNotEmpty(rows);
    TreeUnique(a.leaves, a.dir, b.leaves, b.dir, Index(rows), max);
    if !(FillsLeaves(|Index(rows)|, max) && RepeatsLast(Sort(rows))) {
      var n := |a.leaves|;
      assert forall k :: 0 <= k < n ==> a.leaves[k] == b.leaves[k];
      assert a.leaves == b.leaves;
    }
  }

  lemma IndexNotEmpty(rows: seq<Tuple>)
    requires rows != []
    ensures Index(rows) != []
  {
    IndexMeaning(rows);
    assert rows[0] in Index(rows);
  }

  // Every row can be found in the index built for a permutation, and nothing else can.
  lemma IndexHoldsRows(outcome: Outcome, rows: seq<Tuple>, p: seq<nat>, arity: nat, max: nat, inMemory: bool, t: Tuple)
    requires 1 <= arity <= 4 && IsPermutation(p, arity) && Wide(rows, arity) && max > 0 && rows != [] && |t| == arity
    requires Loaded(outcome, Views(rows, p), arity, max, inMemory)
    requires Records(Views(rows, p), arity) && exists v :: v in Views(rows, p) && v != Impossible(arity)
    ensures View(t, p) in LeafTuples(outcome.leaves) <==> t in rows
    ensures StrictlyIncreasing(LeafTuples(outcome.leaves))
  {
    hide Emitted, Index, Sort, Distinct, AtMost, Less;
    var views := Views(rows, p);
    MergeEmitsIndex(views, arity);
    IndexMeaning(views);
    if t in rows {
      var k :| 0 <= k < |rows| && rows[k] == t;
      assert views[k] == View(t, p);
    }
    if View(t, p) in views {
      var k :| 0 <= k < |views| && views[k] == View(t, p);
      ViewInjective(t, rows[k], p);
    }
  }

  // Four equal rows of one column, with one row to a block and to a leaf: a buffer of three rows is
  // large enough for the merge, whose single leaf points at a second one that is never written.
  method BrokenChain() returns (outcome: Outcome)
    ensures outcome.Built? && outcome.processed == [[7]] && |outcome.leaves| == 1 && !ChainEnds(outcome.leaves)
  {
    var vector := FourRows();
    IndexedRows(vector);
    SmallRecord([7]);
    hide Views, Records, Wide, Loaded, DiskVector.Indexing, DiskVector.NeedsBiggerBuffer;
    outcome := vector.CreateBpt([0]);
    ChainOfEqualRows(outcome);
  }

  method FourRows() returns (vector: DiskVector)
    ensures fresh(vector) && fresh(vector.buffer) && vector.Indexing() && vector.appended == [[7], [7], [7], [7]]
    ensures vector.arity == vector.page == vector.maxRecords == 1 && vector.bufferSize == 3
    ensures vector.currentPermutation == [0]
  {
    var t: Tuple := [7];
    SmallRecord(t);
    hide *;
    vector := new DiskVector(1, 1, 1);
    vector.PushBack(t);
    vector.PushBack(t);
    vector.PushBack(t);
    vector.PushBack(t);
    vector.FinishAppends();
    assert vector.appended == [t, t, t, t];
    var buffer := new Tuple[3](_ => []);
    vector.StartIndexing(buffer, 3, [0], [t, t, t, t]);
  }

  lemma SmallRecord(t: Tuple)
    requires t == [7]
    ensures Records([t], 1) && Records([t, t, t, t], 1) && Wide([t, t, t, t], 1)
    ensures IsPermutation([0], 1) && Views([t, t, t, t], [0]) == [t, t, t, t]
  {
    ViewIdentity([t, t, t, t], 1);
    assert Identity(1) == [0];
  }

  lemma IndexedRows(vector: DiskVector)
    requires vector.Indexing() && |vector.appended| == 4
    requires vector.bufferSize == 3 && vector.page == vector.maxRecords == 1
    ensures vector.Shape() && !vector.NeedsBiggerBuffer()
  {}

  lemma ChainOfEqualRows(outcome: Outcome)
    requires Loaded(outcome, [[7], [7], [7], [7]], 1, 1, false)
    ensures outcome.processed == [[7]] && |outcome.leaves| == 1 && !ChainEnds(outcome.leaves)
  {
    hide Sort, TreeOf, Distinct, Less, AtMost;
    var t: Tuple := [7];
    SortOfEqual(t);
    DistinctOfEqual(t);
    assert Impossible(1)[0] != t[0];
    OneLeaf(outcome.leaves, outcome.dir, t);
  }

  lemma SortOfEqual(t: Tuple)
    ensures Sort([t, t, t, t]) == [t, t, t, t]
  {
    SortSorts([t, t, t, t]);
    SortedUnique(Sort([t, t, t, t]), [t, t, t, t]);
  }

  lemma DistinctOfEqual(t: Tuple)
    ensures Distinct([t, t, t, t]) == [t]
  {
    hide *;
    DistinctSnoc([], t);
    DistinctSnoc([t], t);
    DistinctSnoc([t, t], t);
    DistinctSnoc([t, t, t], t);
    assert [] + [t] == [t] && [t] + [t] == [t, t] && [t, t] + [t] == [t, t, t] && [t, t, t] + [t] == [t, t, t, t];
  }

  lemma OneLeaf(leaves: seq<Leaf>, dir: seq<DirKey>, t: Tuple)
    requires TreeOf(leaves, dir, [t], 1)
    ensures |leaves| == 1
  {
    if leaves != [] {
      FullLeavesSize(leaves[..|leaves| - 1], 1);
      assert |LeafTuples(leaves)| == |leaves| - 1 + |leaves[|leaves| - 1].tuples|;
    }
  }
}

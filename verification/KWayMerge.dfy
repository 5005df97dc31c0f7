// The merge of sorted runs, apart from how the runs are buffered: run r is rows[next[r]..stop[r]],
// `next` moves forward one row at a time, always at a run whose front row is least.
module KWayMerge {
  import opened TupleOrder

  ghost predicate Runs(rows: seq<Tuple>, next: seq<nat>, stop: seq<nat>) {
    |next| == |stop| && forall r :: 0 <= r < |next| ==> next[r] <= stop[r] <= |rows|
  }

  ghost predicate RunsSorted(rows: seq<Tuple>, next: seq<nat>, stop: seq<nat>)
    requires Runs(rows, next, stop)
  {
    forall r :: 0 <= r < |next| ==> Sorted(rows[next[r]..stop[r]])
  }

  // Rows k * size to k * size + size are in order.
  ghost predicate SortedChunk(rows: seq<Tuple>, size: nat, k: nat) {
    forall i, j :: k * size <= i < j < |rows| && j < k * size + size ==> AtMost(rows[i], rows[j])
  }

  ghost predicate SortedChunks(rows: seq<Tuple>, size: nat) {
    forall k: nat :: SortedChunk(rows, size, k)
  }

  // The rows not yet taken from any run.
  ghost function Pending(rows: seq<Tuple>, next: seq<nat>, stop: seq<nat>): multiset<Tuple>
    requires Runs(rows, next, stop)
  {
    if next == [] then multiset{}
    else multiset(rows[next[0]..stop[0]]) + Pending(rows, next[1..], stop[1..])
  }

  // Run r has rows left and no run has a smaller front row.
  ghost predicate Least(rows: seq<Tuple>, next: seq<nat>, stop: seq<nat>, r: nat)
    requires Runs(rows, next, stop)
  {
    && r < |next| && next[r] < stop[r]
    && forall q :: 0 <= q < |next| && next[q] < stop[q] ==> AtMost(rows[next[r]], rows[next[q]])
  }

  ghost predicate Exhausted(next: seq<nat>, stop: seq<nat>) { next == stop }

  // What the merge keeps: the rows popped so far are sorted, none is greater than a pending row,
  // and together with the pending rows they are the input.
  ghost predicate Merging(rows: seq<Tuple>, next: seq<nat>, stop: seq<nat>, popped: seq<Tuple>) {
    && Runs(rows, next, stop)
    && RunsSorted(rows, next, stop)
    && Sorted(popped)
    && multiset(popped) + Pending(rows, next, stop) == multiset(rows)
    && (popped != [] ==> NotAbove(rows, next, stop, popped[|popped| - 1]))
  }

  ghost predicate NotAbove(rows: seq<Tuple>, next: seq<nat>, stop: seq<nat>, x: Tuple)
    requires Runs(rows, next, stop)
  {
    forall r :: 0 <= r < |next| && next[r] < stop[r] ==> AtMost(x, rows[next[r]])
  }

  lemma {:induction false} PendingStep(rows: seq<Tuple>, next: seq<nat>, stop: seq<nat>, r: nat)
    requires Runs(rows, next, stop) && r < |next| && next[r] < stop[r]
    ensures Runs(rows, next[r := next[r] + 1], stop)
    ensures Pending(rows, next, stop) == multiset{rows[next[r]]} + Pending(rows, next[r := next[r] + 1], stop)
  {
    hide *;
    var next' := next[r := next[r] + 1];
    RunsTail(rows, next, stop);
    RunsTail(rows, next', stop);
    PendingHead(rows, next, stop);
    PendingHead(rows, next', stop);
    if r == 0 {
      FrontRow(rows, next[0], stop[0]);
      assert next'[1..] == next[1..];
    } else {
      PendingStep(rows, next[1..], stop[1..], r - 1);
      assert next'[1..] == next[1..][r - 1 := next[r] + 1];
      Reorder(multiset(rows[next[0]..stop[0]]), multiset{rows[next[r]]}, Pending(rows, next'[1..], stop[1..]));
    }
  }

  lemma RunsTail(rows: seq<Tuple>, next: seq<nat>, stop: seq<nat>)
    ensures Runs(rows, next, stop) <==>
            |next| == |stop| && forall r :: 0 <= r < |next| ==> next[r] <= stop[r] <= |rows|
    ensures Runs(rows, next, stop) && next != [] ==> Runs(rows, next[1..], stop[1..])
  {}

  lemma FrontRow(rows: seq<Tuple>, i: nat, j: nat)
    requires i < j <= |rows|
    ensures multiset(rows[i..j]) == multiset{rows[i]} + multiset(rows[i + 1..j])
  {
    assert rows[i..j] == [rows[i]] + rows[i + 1..j];
  }

  lemma Reorder(a: multiset<Tuple>, b: multiset<Tuple>, c: multiset<Tuple>)
    ensures a + (b + c) == b + (a + c)
  {}

  lemma PendingHead(rows: seq<Tuple>, next: seq<nat>, stop: seq<nat>)
    requires Runs(rows, next, stop) && next != []
    ensures Pending(rows, next, stop) == multiset(rows[next[0]..stop[0]]) + Pending(rows, next[1..], stop[1..])
  {}

  lemma {:induction false} PendingExhausted(rows: seq<Tuple>, next: seq<nat>, stop: seq<nat>)
    requires Runs(rows, next, stop) && Exhausted(next, stop)
    ensures Pending(rows, next, stop) == multiset{}
  {
    if next != [] {
      PendingExhausted(rows, next[1..], stop[1..]);
    }
  }

  // Taking the least front row keeps the merge going.
  lemma MergeStep(rows: seq<Tuple>, next: seq<nat>, stop: seq<nat>, popped: seq<Tuple>, r: nat)
    requires Merging(rows, next, stop, popped)
    requires Least(rows, next, stop, r)
    ensures Merging(rows, next[r := next[r] + 1], stop, popped + [rows[next[r]]])
  {
    hide Pending, RunsSorted, Sorted, NotAbove;
    var x := rows[next[r]];
    PendingStep(rows, next, stop, r);
    RunsSortedStep(rows, next, stop, r);
    NotAboveStep(rows, next, stop, r);
    LeastFollows(rows, next, stop, popped, r);
    assert multiset(popped + [x]) == multiset(popped) + multiset{x};
  }

  lemma RunsSortedStep(rows: seq<Tuple>, next: seq<nat>, stop: seq<nat>, r: nat)
    requires Runs(rows, next, stop) && RunsSorted(rows, next, stop) && r < |next| && next[r] < stop[r]
    ensures RunsSorted(rows, next[r := next[r] + 1], stop)
  {
    hide Sorted;
    var next' := next[r := next[r] + 1];
    forall q | 0 <= q < |next| ensures Sorted(rows[next'[q]..stop[q]]) {
      if q == r {
        assert rows[next'[r]..stop[r]] == rows[next[r]..stop[r]][1..];
        SortedTail(rows[next[r]..stop[r]]);
      }
    }
  }

  lemma SortedTail(s: seq<Tuple>)
    requires Sorted(s) && s != []
    ensures Sorted(s[1..]) && forall i :: 0 < i < |s| ==> AtMost(s[0], s[i])
  {}

  // The row after the least one in its run is not smaller.
  lemma NotAboveStep(rows: seq<Tuple>, next: seq<nat>, stop: seq<nat>, r: nat)
    requires Runs(rows, next, stop) && RunsSorted(rows, next, stop) && Least(rows, next, stop, r)
    ensures NotAbove(rows, next[r := next[r] + 1], stop, rows[next[r]])
  {
    hide Sorted, AtMost;
    var run := rows[next[r]..stop[r]];
    SortedTail(run);
    if next[r] + 1 < stop[r] {
      assert run[1] == rows[next[r] + 1] && AtMost(run[0], run[1]);
    }
  }

  lemma LeastFollows(rows: seq<Tuple>, next: seq<nat>, stop: seq<nat>, popped: seq<Tuple>, r: nat)
    requires Runs(rows, next, stop) && Least(rows, next, stop, r) && Sorted(popped)
    requires popped != [] ==> NotAbove(rows, next, stop, popped[|popped| - 1])
    ensures Sorted(popped + [rows[next[r]]])
  {
    hide AtMost;
    var x := rows[next[r]];
    forall i | 0 <= i < |popped| ensures AtMost(popped[i], x) {
      if i < |popped| - 1 {
        AtMostTransitive(popped[i], popped[|popped| - 1], x);
      }
    }
  }

  // When every run is exhausted the popped rows are the sorted input.
  lemma MergeEnd(rows: seq<Tuple>, next: seq<nat>, stop: seq<nat>, popped: seq<Tuple>)
    requires Merging(rows, next, stop, popped) && Exhausted(next, stop)
    ensures popped == Sort(rows)
  {
    PendingExhausted(rows, next, stop);
    SortSorts(rows);
    SortedUnique(popped, Sort(rows));
  }

  // Cutting the input at the ends of its runs loses nothing.
  lemma {:induction false} PendingOfRuns(rows: seq<Tuple>, next: seq<nat>, stop: seq<nat>)
    requires Runs(rows, next, stop) && next != []
    requires forall r :: 0 <= r < |next| - 1 ==> stop[r] == next[r + 1]
    requires stop[|stop| - 1] == |rows|
    ensures Pending(rows, next, stop) == multiset(rows[next[0]..])
  {
    if |next| == 1 {
      assert Pending(rows, next[1..], stop[1..]) == multiset{};
      assert rows[next[0]..stop[0]] == rows[next[0]..];
    } else {
      PendingOfRuns(rows, next[1..], stop[1..]);
      assert rows[next[0]..] == rows[next[0]..stop[0]] + rows[stop[0]..];
    }
  }

  // Everything popped comes from the input, and while a run has rows left not all of it is popped.
  lemma PoppedAreRows(rows: seq<Tuple>, next: seq<nat>, stop: seq<nat>, popped: seq<Tuple>)
    requires Merging(rows, next, stop, popped)
    ensures |popped| <= |rows|
    ensures Sorted(popped) && forall t :: t in popped ==> t in rows
  {
    assert |multiset(popped)| + |Pending(rows, next, stop)| == |multiset(rows)|;
    forall t | t in popped ensures t in rows {
      assert t in multiset(popped);
      assert t in multiset(rows);
    }
  }
}

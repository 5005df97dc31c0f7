// Facts about rows as multisets and sets that the bulk loader uses between one index and the next.
module RowSets {
  import opened TupleOrder
  import opened Permutations

  ghost predicate NoRepeats(s: seq<Tuple>) { forall i, j :: 0 <= i < j < |s| ==> s[i] != s[j] }

  ghost predicate SameRows(a: seq<Tuple>, b: seq<Tuple>) { forall x :: x in a <==> x in b }

  lemma SameMultisetSameRows(a: seq<Tuple>, b: seq<Tuple>)
    requires multiset(a) == multiset(b)
    ensures SameRows(a, b)
  {
    forall x ensures x in a <==> x in b {
      assert x in a <==> x in multiset(a);
      assert x in b <==> x in multiset(b);
    }
  }

  lemma {:induction false} NoRepeatsCounts(s: seq<Tuple>)
    ensures NoRepeats(s) <==> forall x :: multiset(s)[x] <= 1
  {
    if s != [] {
      var t := s[1..];
      assert s == [s[0]] + t;
      NoRepeatsCounts(t);
      if NoRepeats(s) {
        assert NoRepeats(t);
        assert s[0] !in t;
      }
      if forall x :: multiset(s)[x] <= 1 {
        assert forall x :: multiset(t)[x] <= multiset(s)[x];
        assert multiset(t)[s[0]] == 0;
        assert s[0] !in t;
        forall i, j | 0 <= i < j < |s| ensures s[i] != s[j] {
          if i > 0 {
            assert t[i - 1] != t[j - 1];
          } else {
            assert t[j - 1] in t;
          }
        }
      }
    }
  }

  // Sorting rows without repetitions puts them in strictly increasing order.
  lemma SortedWithoutRepeats(s: seq<Tuple>)
    requires NoRepeats(s)
    ensures StrictlyIncreasing(Sort(s)) && Index(s) == Sort(s)
  {
    SortSorts(s);
    NoRepeatsCounts(s);
    NoRepeatsCounts(Sort(s));
    DistinctOfIncreasing(Sort(s));
  }

  lemma IncreasingHasNoRepeats(s: seq<Tuple>)
    requires StrictlyIncreasing(s)
    ensures NoRepeats(s)
  {
    forall i, j | 0 <= i < j < |s| ensures s[i] != s[j] {
      LessTotal(s[i], s[j]);
    }
  }

  /* ----- rows under a column move ----- */

  lemma MovedInjective(a: Tuple, b: Tuple, m: Move)
    requires |a| == |b| && (m == Swap01 ==> |a| >= 2) && (m in {Rotate, Swap02, Swap12} ==> |a| >= 3)
    requires Moved(a, m) == Moved(b, m)
    ensures a == b
  {
    var v, w := Moved(a, m), Moved(b, m);
    assert forall i :: 3 <= i < |a| ==> v[i] == a[i] && w[i] == b[i];
    assert |a| > 0 ==> v[0] == w[0];
    assert |a| > 1 ==> v[1] == w[1];
    assert |a| > 2 ==> v[2] == w[2];
    if m == Keep || m == Unsupported {
      assert v == a && w == b;
    } else {
      assert a[0] == b[0] && a[1] == b[1] && (|a| > 2 ==> a[2] == b[2]);
    }
  }

  predicate Movable(rows: seq<Tuple>, n: nat, m: Move) {
    Wide(rows, n) && (m == Swap01 ==> n >= 2) && (m in {Rotate, Swap02, Swap12} ==> n >= 3)
  }

  lemma MovedNoRepeats(rows: seq<Tuple>, n: nat, m: Move)
    requires Movable(rows, n, m) && NoRepeats(rows)
    ensures NoRepeats(MovedAll(rows, m))
  {
    var r := MovedAll(rows, m);
    forall i, j | 0 <= i < j < |r| ensures r[i] != r[j] {
      if r[i] == r[j] {
        MovedInjective(rows[i], rows[j], m);
      }
    }
  }

  lemma MovedSameRows(a: seq<Tuple>, b: seq<Tuple>, n: nat, m: Move)
    requires Movable(a, n, m) && Movable(b, n, m) && SameRows(a, b)
    ensures SameRows(MovedAll(a, m), MovedAll(b, m))
  {
    MovedRowsIn(a, b, n, m);
    MovedRowsIn(b, a, n, m);
  }

  lemma MovedRowsIn(a: seq<Tuple>, b: seq<Tuple>, n: nat, m: Move)
    requires Movable(a, n, m) && Movable(b, n, m) && SameRows(a, b)
    ensures forall x :: x in MovedAll(a, m) ==> x in MovedAll(b, m)
  {
    var r := MovedAll(a, m);
    forall i | 0 <= i < |r| ensures r[i] in MovedAll(b, m) {
      assert a[i] in a;
      var j :| 0 <= j < |b| && b[j] == a[i];
      assert MovedAll(b, m)[j] == r[i];
    }
  }

  lemma MovedConcat(a: seq<Tuple>, b: seq<Tuple>, n: nat, m: Move)
    requires Movable(a, n, m) && Movable(b, n, m)
    ensures MovedAll(a + b, m) == MovedAll(a, m) + MovedAll(b, m)
  {}

  lemma CancelOne(x: Tuple, a: multiset<Tuple>, b: multiset<Tuple>)
    requires multiset{x} + a == multiset{x} + b
    ensures a == b
  {
    assert a == (multiset{x} + a) - multiset{x};
    assert b == (multiset{x} + b) - multiset{x};
  }

  lemma WithoutOne(b: seq<Tuple>, j: nat)
    requires j < |b|
    ensures multiset(b) == multiset{b[j]} + multiset(b[..j] + b[j + 1..])
  {
    assert b == b[..j] + [b[j]] + b[j + 1..];
  }

  // Taking one row out before or after the move.
  lemma MovedWithout(b: seq<Tuple>, j: nat, n: nat, m: Move)
    requires Movable(b, n, m) && j < |b|
    ensures var rest := b[..j] + b[j + 1..];
            && Movable(rest, n, m)
            && multiset(b) == multiset{b[j]} + multiset(rest)
            && multiset(MovedAll(b, m)) == multiset{Moved(b[j], m)} + multiset(MovedAll(rest, m))
  {
    hide Moved;
    var rest, r := b[..j] + b[j + 1..], MovedAll(b, m);
    WithoutOne(b, j);
    WithoutOne(r, j);
    var a, c := MovedAll(rest, m), r[..j] + r[j + 1..];
    assert |a| == |c| && forall k :: 0 <= k < |rest| ==> a[k] == Moved(rest[k], m);
    assert forall k :: 0 <= k < |rest| ==> c[k] == Moved(rest[k], m);
    assert a == c;
  }

  lemma {:induction false} MovedSameMultiset(a: seq<Tuple>, b: seq<Tuple>, n: nat, m: Move)
    requires Movable(a, n, m) && Movable(b, n, m) && multiset(a) == multiset(b)
    ensures multiset(MovedAll(a, m)) == multiset(MovedAll(b, m))
    decreases |a|
  {
    hide Moved, MovedAll;
    if a == [] {
      assert |multiset(b)| == 0;
      assert b == [];
    } else {
      assert a[0] in multiset(b);
      var j :| 0 <= j < |b| && b[j] == a[0];
      MovedWithout(a, 0, n, m);
      MovedWithout(b, j, n, m);
      var a1, b1 := a[..0] + a[1..], b[..j] + b[j + 1..];
      CancelOne(a[0], multiset(a1), multiset(b1));
      MovedSameMultiset(a1, b1, n, m);
    }
  }

  // Moving rows from one permutation to another is viewing them through the other.
  lemma MovedViews(rows: seq<Tuple>, from: seq<nat>, to: seq<nat>)
    requires 1 <= |from| <= 4 && Wide(rows, |from|) && IsPermutation(from, |from|) && IsPermutation(to, |from|)
    requires MoveBetween(from, to) != Unsupported
    ensures Movable(Views(rows, from), |from|, MoveBetween(from, to))
    ensures MovedAll(Views(rows, from), MoveBetween(from, to)) == Views(rows, to)
  {
    forall i | 0 <= i < |rows|
      ensures Moved(Views(rows, from)[i], MoveBetween(from, to)) == Views(rows, to)[i]
    {
      MoveChangesView(rows[i], from, to);
    }
  }

  lemma ViewIdentity(rows: seq<Tuple>, n: nat)
    requires Wide(rows, n)
    ensures IsPermutation(Identity(n), n) && Views(rows, Identity(n)) == rows
  {
    forall i | 0 <= i < |rows| ensures Views(rows, Identity(n))[i] == rows[i] {
      assert View(rows[i], Identity(n)) == rows[i];
    }
  }
}

// Lexicographic order on index tuples, and the specification of a bulk-loaded index:
// its input rows, sorted, without repetitions.
module TupleOrder {
  type Tuple = seq<nat>

  predicate Less(a: Tuple, b: Tuple) {
    if a == [] || b == [] then a == [] && b != []
    else a[0] < b[0] || (a[0] == b[0] && Less(a[1..], b[1..]))
  }

  // At column k the rows differ for the first time, and a has the smaller value there.
  predicate SmallerAt(a: Tuple, b: Tuple, k: nat) {
    k < |a| && k < |b| && a[..k] == b[..k] && a[k] < b[k]
  }

  // The order is lexicographic: of two rows of one width, the one that is smaller in the first column in
  // which they differ comes first. A shorter row comes before those that continue it.
  lemma FirstDifference(a: Tuple, b: Tuple)
    ensures Less(a, b) <==> a < b || exists k: nat :: SmallerAt(a, b, k)
    ensures |a| == |b| ==> (Less(a, b) <==> exists k: nat :: SmallerAt(a, b, k))
  {
    if Less(a, b) {
      var k := DifferenceOf(a, b);
    }
    if a < b {
      PrefixLess(a, b, |a|);
    }
    if k: nat :| SmallerAt(a, b, k) {
      PrefixLess(a, b, k);
    }
  }

  lemma {:induction false} DifferenceOf(a: Tuple, b: Tuple) returns (k: nat)
    requires Less(a, b)
    ensures a < b || SmallerAt(a, b, k)
  {
    k := 0;
    if a != [] && a[0] == b[0] {
      k := DifferenceOf(a[1..], b[1..]);
      assert a == [a[0]] + a[1..] && b == [b[0]] + b[1..];
      k := k + 1;
      assert a[1..] < b[1..] || (a[..k] == [a[0]] + a[1..][..k - 1] && b[..k] == [b[0]] + b[1..][..k - 1]);
    }
  }

  lemma {:induction false} PrefixLess(a: Tuple, b: Tuple, k: nat)
    requires k <= |a| && k < |b| && a[..k] == b[..k] && (k < |a| ==> a[k] < b[k])
    ensures Less(a, b)
  {
    if k > 0 {
      assert a[0] == a[..k][0] == b[..k][0] == b[0];
      assert a[1..][..k - 1] == a[..k][1..] && b[1..][..k - 1] == b[..k][1..];
      PrefixLess(a[1..], b[1..], k - 1);
    }
  }

  predicate AtMost(a: Tuple, b: Tuple) { a == b || Less(a, b) }

  lemma {:induction false} LessTotal(a: Tuple, b: Tuple)
    ensures a == b || Less(a, b) || Less(b, a)
    ensures !(Less(a, b) && (a == b || Less(b, a)))
  {
    if a != [] && b != [] {
      LessTotal(a[1..], b[1..]);
      assert a == [a[0]] + a[1..] && b == [b[0]] + b[1..];
    }
  }

  lemma {:induction false} LessTransitive(a: Tuple, b: Tuple, c: Tuple)
    requires Less(a, b) && Less(b, c)
    ensures Less(a, c)
  {
    if a != [] && b != [] && c != [] && a[0] == b[0] == c[0] {
      LessTransitive(a[1..], b[1..], c[1..]);
    }
  }

  lemma AtMostTransitive(a: Tuple, b: Tuple, c: Tuple)
    requires AtMost(a, b) && AtMost(b, c)
    ensures AtMost(a, c)
  {
    if a != b && b != c {
      LessTransitive(a, b, c);
    }
  }

  lemma AtMostAntisymmetric(a: Tuple, b: Tuple)
    requires AtMost(a, b) && AtMost(b, a)
    ensures a == b
  {
    LessTotal(a, b);
  }

  ghost predicate Sorted(s: seq<Tuple>) {
    forall i, j :: 0 <= i < j < |s| ==> AtMost(s[i], s[j])
  }

  ghost predicate StrictlyIncreasing(s: seq<Tuple>) {
    forall i, j :: 0 <= i < j < |s| ==> Less(s[i], s[j])
  }

  /* ----- sorting ----- */

  function Insert(x: Tuple, s: seq<Tuple>): (r: seq<Tuple>)
    ensures |r| == |s| + 1
  {
    if s == [] || AtMost(x, s[0]) then [x] + s else [s[0]] + Insert(x, s[1..])
  }

  // What std::sort leaves: equal tuples are indistinguishable, so stability does not matter.
  function Sort(s: seq<Tuple>): (r: seq<Tuple>)
    ensures |r| == |s|
  {
    if s == [] then [] else Insert(s[0], Sort(s[1..]))
  }

  lemma {:induction false} InsertSorted(x: Tuple, s: seq<Tuple>)
    requires Sorted(s)
    ensures Sorted(Insert(x, s)) && multiset(Insert(x, s)) == multiset{x} + multiset(s)
  {
    if s == [] {
    } else if AtMost(x, s[0]) {
      forall j | 0 <= j < |s| ensures AtMost(x, s[j]) {
        AtMostTransitive(x, s[0], s[j]);
      }
    } else {
      LessTotal(x, s[0]);
      InsertSorted(x, s[1..]);
      var t := Insert(x, s[1..]);
      assert s == [s[0]] + s[1..];
      forall j | 0 <= j < |t| ensures AtMost(s[0], t[j]) {
        assert t[j] in multiset(t);
        assert t[j] == x || t[j] in s[1..];
      }
    }
  }

  lemma {:induction false} SortSorts(s: seq<Tuple>)
    ensures Sorted(Sort(s)) && multiset(Sort(s)) == multiset(s)
  {
    if s != [] {
      SortSorts(s[1..]);
      InsertSorted(s[0], Sort(s[1..]));
      assert s == [s[0]] + s[1..];
    }
  }

  // A sorted arrangement is unique.
  lemma {:induction false} SortedUnique(a: seq<Tuple>, b: seq<Tuple>)
    requires Sorted(a) && Sorted(b) && multiset(a) == multiset(b)
    ensures a == b
  {
    if a == [] {
      assert |multiset(b)| == 0;
    } else {
      assert a[0] in multiset(b) && |multiset(a)| == |multiset(b)|;
      assert b[0] in multiset(a);
      AtMostAntisymmetric(a[0], b[0]);
      assert a == [a[0]] + a[1..] && b == [b[0]] + b[1..];
      assert multiset(a[1..]) == multiset(a) - multiset{a[0]};
      assert multiset(b[1..]) == multiset(b) - multiset{b[0]};
      SortedUnique(a[1..], b[1..]);
    }
  }

  /* ----- removing adjacent repetitions ----- */

  ghost predicate RepeatsLast(s: seq<Tuple>) { |s| >= 2 && s[|s| - 1] == s[|s| - 2] }

  function Distinct(s: seq<Tuple>): (r: seq<Tuple>)
    ensures |r| <= |s| && (s != [] ==> r != [] && r[|r| - 1] == s[|s| - 1])
    decreases |s|
  {
    if |s| < 2 then s
    else
      var front := s[..|s| - 1];
      if s[|s| - 1] == front[|front| - 1] then Distinct(front) else Distinct(front) + [s[|s| - 1]]
  }

  lemma DistinctSnoc(s: seq<Tuple>, x: Tuple)
    ensures s == [] ==> Distinct(s + [x]) == [x]
    ensures s != [] && x == s[|s| - 1] ==> Distinct(s + [x]) == Distinct(s)
    ensures s != [] && x != s[|s| - 1] ==> Distinct(s + [x]) == Distinct(s) + [x]
  {
    assert (s + [x])[..|s|] == s;
  }

  lemma {:induction false} DistinctIncreases(s: seq<Tuple>)
    requires Sorted(s)
    ensures StrictlyIncreasing(Distinct(s))
    ensures forall x :: x in Distinct(s) <==> x in s
    decreases |s|
  {
    if |s| >= 2 {
      var front, last := s[..|s| - 1], s[|s| - 1];
      DistinctIncreases(front);
      assert s == front + [last];
      if last != front[|front| - 1] {
        var d := Distinct(front);
        forall i | 0 <= i < |d| ensures Less(d[i], last) {
          assert d[i] in front;
          if d[i] == last {
            assert AtMost(front[|front| - 1], last);
            var k :| 0 <= k < |front| && front[k] == last;
            AtMostAntisymmetric(front[|front| - 1], last);
          } else {
            var k :| 0 <= k < |front| && front[k] == d[i];
            assert AtMost(s[k], s[|s| - 1]);
          }
        }
      }
    }
  }

  // A strictly increasing sequence is determined by its elements.
  lemma {:induction false} IncreasingUnique(a: seq<Tuple>, b: seq<Tuple>)
    requires StrictlyIncreasing(a) && StrictlyIncreasing(b)
    requires forall x :: x in a <==> x in b
    ensures a == b
  {
    assert b != [] ==> b[0] in b;
    if a != [] {
      assert a[0] in b;
      assert b != [] && b[0] in a;
      assert AtMost(a[0], b[0]) && AtMost(b[0], a[0]);
      AtMostAntisymmetric(a[0], b[0]);
      TailElements(a);
      TailElements(b);
      IncreasingUnique(a[1..], b[1..]);
      assert a == [a[0]] + a[1..] && b == [b[0]] + b[1..];
    }
  }

  lemma TailElements(a: seq<Tuple>)
    requires a != [] && StrictlyIncreasing(a)
    ensures StrictlyIncreasing(a[1..])
    ensures forall x :: x in a[1..] <==> x in a && x != a[0]
  {
    assert a == [a[0]] + a[1..];
    forall i | 1 <= i < |a| ensures a[i] != a[0] {
      LessTotal(a[0], a[i]);
    }
  }

  /* ----- the specification of an index ----- */

  function Index(rows: seq<Tuple>): (r: seq<Tuple>) { Distinct(Sort(rows)) }

  // The index holds each row once, in increasing order: it depends on the set of rows only.
  lemma IndexMeaning(rows: seq<Tuple>)
    ensures StrictlyIncreasing(Index(rows))
    ensures forall x :: x in Index(rows) <==> x in rows
  {
    SortSorts(rows);
    DistinctIncreases(Sort(rows));
    forall x ensures x in Sort(rows) <==> x in rows {
      assert x in Sort(rows) <==> x in multiset(Sort(rows));
      assert x in rows <==> x in multiset(rows);
    }
  }

  lemma IndexOfSameRows(a: seq<Tuple>, b: seq<Tuple>)
    requires forall x :: x in a <==> x in b
    ensures Index(a) == Index(b)
  {
    IndexMeaning(a);
    IndexMeaning(b);
    IncreasingUnique(Index(a), Index(b));
  }

  lemma {:induction false} DistinctOfIncreasing(s: seq<Tuple>)
    requires StrictlyIncreasing(s)
    ensures Distinct(s) == s
    decreases |s|
  {
    if |s| >= 2 {
      var front := s[..|s| - 1];
      LessTotal(s[|s| - 2], s[|s| - 1]);
      DistinctOfIncreasing(front);
      assert s == front + [s[|s| - 1]];
    }
  }
}

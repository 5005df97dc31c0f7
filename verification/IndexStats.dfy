// What the statistics of a built index say about the rows that were added, in the order of their columns when
// they were added.
module IndexStats {
  import opened TupleOrder
  import opened Permutations
  import opened RowSets
  import opened Merger
  import opened DiskVector
  import opened DiskVectorProperties
  import opened Stats

  // The rows, each once.
  ghost function RowSet(rows: seq<Tuple>): (r: set<Tuple>) { set t | t in rows }

  // The rows with value k in column c, each once.
  ghost function RowsWith(rows: seq<Tuple>, c: nat, k: nat): (r: set<Tuple>)
    requires Rows(rows, c + 1)
  {
    set t | t in rows && t[c] == k
  }

  // The values of column c, and those of column d where column c has value k.
  ghost function Column(rows: seq<Tuple>, c: nat): (r: set<nat>)
    requires Rows(rows, c + 1)
  {
    set t | t in rows :: t[c]
  }

  ghost function ColumnWith(rows: seq<Tuple>, c: nat, k: nat, d: nat): (r: set<nat>)
    requires Rows(rows, c + 1) && Rows(rows, d + 1)
  {
    set t | t in rows && t[c] == k :: t[d]
  }

  // Sets that a relation matches one to one are equally large.
  lemma {:induction false} OneToOne(a: set<Tuple>, b: set<Tuple>, p: seq<nat>)
    requires forall t :: t in a ==> IsPermutation(p, |t|) && |t| <= 4 && View(t, p) in b
    requires forall v :: v in b ==> exists t :: t in a && View(t, p) == v
    ensures |a| == |b|
    decreases |a|
  {
    if t :| t in a {
      var v := View(t, p);
      forall u | u in a - {t} ensures View(u, p) in b - {v} {
        if View(u, p) == v {
          ViewInjective(u, t, p);
        }
      }
      forall w | w in b - {v} ensures exists u :: u in a - {t} && View(u, p) == w {
        var u :| u in a && View(u, p) == w;
        assert u in a - {t};
      }
      OneToOne(a - {t}, b - {v}, p);
    } else {
      assert b == {};
    }
  }

  lemma {:induction false} CountOfDistinct(s: seq<Tuple>, k: nat)
    requires Rows(s, 1) && NoRepeats(s)
    ensures Count(s, k) == |RowsWith(s, 0, k)| && |s| == |RowSet(s)|
    decreases |s|
  {
    if s != [] {
      var front, last := s[..|s| - 1], s[|s| - 1];
      assert s == front + [last];
      OneMore(front, last, k);
      assert last !in front;
      CountOfDistinct(front, k);
      CountSnoc(front, last, k);
      hide RowSet, RowsWith, Count;
    }
  }

  lemma OneMore(s: seq<Tuple>, t: Tuple, k: nat)
    requires Rows(s + [t], 1)
    ensures Rows(s, 1) && |t| >= 1 && RowSet(s + [t]) == RowSet(s) + {t} && (t in RowSet(s) <==> t in s)
    ensures t in RowsWith(s, 0, k) ==> t in s
    ensures RowsWith(s + [t], 0, k) == if t[0] == k then RowsWith(s, 0, k) + {t} else RowsWith(s, 0, k)
  {
    assert t in s + [t];
    assert forall u :: u in s ==> u in s + [t];
  }

  // The index of the rows seen through p has the same rows, seen through p.
  lemma IndexRows(rows: seq<Tuple>, p: seq<nat>, t: Tuple)
    requires |p| <= 4 && IsPermutation(p, |p|) && Wide(rows, |p|)
    ensures |t| == |p| ==> (View(t, p) in Index(Views(rows, p)) <==> t in rows)
    ensures t in Index(Views(rows, p)) ==> exists u :: u in rows && |u| == |p| && View(u, p) == t
  {
    var views := Views(rows, p);
    IndexMeaning(views);
    hide Index;
    if |t| == |p| && t in rows {
      var k :| 0 <= k < |rows| && rows[k] == t;
      assert views[k] == View(t, p);
    }
    if |t| == |p| && View(t, p) in views {
      var k :| 0 <= k < |views| && views[k] == View(t, p);
      ViewInjective(t, rows[k], p);
    }
    if t in views {
      var k :| 0 <= k < |views| && views[k] == t;
      assert rows[k] in rows && View(rows[k], p) == t;
    }
  }

  lemma AllWide(rows: seq<Tuple>, n: nat)
    requires Wide(rows, n)
    ensures Rows(rows, n) && forall t :: t in rows ==> |t| == n
  {}

  // Counting in the index is counting rows.
  lemma IndexCounts(rows: seq<Tuple>, p: seq<nat>)
    requires 1 <= |p| <= 4 && IsPermutation(p, |p|) && Wide(rows, |p|)
    ensures Rows(rows, |p|) && Rows(Index(Views(rows, p)), |p|)
    ensures var index := Index(Views(rows, p));
            && |index| == |RowSet(rows)|
            && Keys(index) == Column(rows, p[0])
            && (forall k :: Count(index, k) == |RowsWith(rows, p[0], k)|)
            && (|p| >= 2 ==> forall k :: Values(index, k) == ColumnWith(rows, p[0], k, p[1]))
  {
    var index := Index(Views(rows, p));
    AllWide(rows, |p|);
    IndexMeaning(Views(rows, p));
    IncreasingHasNoRepeats(index);
    IndexIsWide(rows, p);
    hide Index, Views, Wide, NoRepeats, Count, StrictlyIncreasing;
    forall t | t in rows ensures View(t, p) in index && View(t, p)[0] == t[p[0]] {
      IndexRows(rows, p, t);
    }
    forall v | v in index ensures exists t :: t in rows && |t| == |p| && View(t, p) == v {
      IndexRows(rows, p, v);
    }
    CountOfDistinct(index, 0);
    OneToOne(RowSet(rows), RowSet(index), p);
    forall k ensures Count(index, k) == |RowsWith(rows, p[0], k)| {
      CountOfDistinct(index, k);
      OneToOne(RowsWith(rows, p[0], k), RowsWith(index, 0, k), p);
    }
    KeysOfViews(rows, index, p);
    if |p| >= 2 {
      forall k ensures Values(index, k) == ColumnWith(rows, p[0], k, p[1]) {
        ValuesOfViews(rows, index, p, k);
      }
    }
  }

  lemma IndexIsWide(rows: seq<Tuple>, p: seq<nat>)
    requires |p| <= 4 && IsPermutation(p, |p|) && Wide(rows, |p|)
    ensures Rows(Index(Views(rows, p)), |p|)
  {
    forall t | t in Index(Views(rows, p)) ensures |t| >= |p| {
      IndexRows(rows, p, t);
    }
  }

  // The two sequences have the same rows, one of them seen through p.
  ghost predicate Viewed(rows: seq<Tuple>, views: seq<Tuple>, p: seq<nat>) {
    && IsPermutation(p, |p|)
    && (forall t :: t in rows ==> |t| == |p| && View(t, p) in views)
    && forall v :: v in views ==> exists t :: t in rows && |t| == |p| && View(t, p) == v
  }

  lemma KeysOfViews(rows: seq<Tuple>, views: seq<Tuple>, p: seq<nat>)
    requires |p| >= 1 && Viewed(rows, views, p) && Rows(rows, |p|) && Rows(views, |p|)
    ensures Keys(views) == Column(rows, p[0])
  {
    forall k ensures k in Keys(views) <==> k in Column(rows, p[0]) {
      if k in Keys(views) {
        var v :| v in views && v[0] == k;
        var t :| t in rows && |t| == |p| && View(t, p) == v;
        assert t[p[0]] == k;
      }
      if k in Column(rows, p[0]) {
        var t :| t in rows && t[p[0]] == k;
        assert View(t, p)[0] == k;
      }
    }
  }

  lemma ValuesOfViews(rows: seq<Tuple>, views: seq<Tuple>, p: seq<nat>, k: nat)
    requires |p| >= 2 && Viewed(rows, views, p) && Rows(rows, |p|) && Rows(views, |p|)
    ensures Values(views, k) == ColumnWith(rows, p[0], k, p[1])
  {
    forall x ensures x in Values(views, k) <==> x in ColumnWith(rows, p[0], k, p[1]) {
      if x in Values(views, k) {
        var v :| v in views && v[0] == k && v[1] == x;
        var t :| t in rows && |t| == |p| && View(t, p) == v;
        assert t[p[0]] == k && t[p[1]] == x;
      }
      if x in ColumnWith(rows, p[0], k, p[1]) {
        var t :| t in rows && t[p[0]] == k && t[p[1]] == x;
        assert View(t, p)[0] == k && View(t, p)[1] == x;
      }
    }
  }

  // An index has been built from the rows through p, and the rows are not all the all-ones record if it was
  // built by merging.
  ghost predicate BuiltFrom(outcome: Outcome, rows: seq<Tuple>, p: seq<nat>, max: nat, inMemory: bool) {
    && 1 <= |p| <= 4 && IsPermutation(p, |p|) && Wide(rows, |p|) && max > 0
    && Records(Views(rows, p), |p|) && Loaded(outcome, Views(rows, p), |p|, max, inMemory)
    && (inMemory || exists v :: v in Views(rows, p) && v != Impossible(|p|))
  }

  lemma ProcessedIsIndex(outcome: Outcome, rows: seq<Tuple>, p: seq<nat>, max: nat, inMemory: bool)
    requires BuiltFrom(outcome, rows, p, max, inMemory)
    ensures outcome.Built? && outcome.processed == Index(Views(rows, p))
    ensures StrictlyIncreasing(Index(Views(rows, p)))
  {
    var views := Views(rows, p);
    IndexMeaning(views);
    if views == [] {
      NoIndex(views);
    } else if !inMemory {
      MergeEmitsIndex(views, |p|);
    }
  }

  lemma NoIndex(rows: seq<Tuple>)
    requires rows == []
    ensures Index(rows) == []
  {}

  // DistinctStat over an index: how many rows there are, and how many values in the first of its columns.
  method KeyStats(outcome: Outcome, ghost rows: seq<Tuple>, ghost p: seq<nat>, ghost max: nat, ghost inMemory: bool)
    returns (all: nat, distinct: nat)
    requires BuiltFrom(outcome, rows, p, max, inMemory)
    ensures Rows(rows, |p|) && all == |RowSet(rows)| && distinct == |Column(rows, p[0]) - {0}|
  {
    ProcessedIsIndex(outcome, rows, p, max, inMemory);
    IndexCounts(rows, p);
    hide *;
    all, distinct := SummarizeKeys(outcome.processed);
  }

  // PredicateStat over the index POS, say: how many rows there are with each value in the first column.
  method GroupStats(outcome: Outcome, ghost rows: seq<Tuple>, ghost p: seq<nat>, ghost max: nat, ghost inMemory: bool)
    returns (all: nat, dict: map<nat, nat>)
    requires BuiltFrom(outcome, rows, p, max, inMemory)
    ensures Rows(rows, |p|) && all == |RowSet(rows)| && dict.Keys == Column(rows, p[0]) - {0}
    ensures forall k :: k in dict ==> dict[k] == |RowsWith(rows, p[0], k)|
  {
    ProcessedIsIndex(outcome, rows, p, max, inMemory);
    IndexCounts(rows, p);
    hide *;
    all, dict := SummarizeGroups(outcome.processed);
  }

  // PropStat over an index of properties that starts with the key: rows and distinct values for each key.
  method PropertyStats(outcome: Outcome, ghost rows: seq<Tuple>, ghost p: seq<nat>, ghost max: nat,
      ghost inMemory: bool)
    returns (all: nat, keyCount: map<nat, nat>, distinctValues: map<nat, nat>)
    requires BuiltFrom(outcome, rows, p, max, inMemory) && |p| >= 2
    ensures Rows(rows, |p|) && all == |RowSet(rows)|
    ensures keyCount.Keys == distinctValues.Keys == Column(rows, p[0]) - {0}
    ensures forall k :: k in keyCount ==>
              keyCount[k] == |RowsWith(rows, p[0], k)| && distinctValues[k] == |ColumnWith(rows, p[0], k, p[1])|
  {
    ProcessedIsIndex(outcome, rows, p, max, inMemory);
    IndexCounts(rows, p);
    hide *;
    all, keyCount, distinctValues := SummarizeProperties(outcome.processed);
  }
}

// The streaming statistics gathered while an index is written: they see its rows in increasing order.
module Stats {
  import opened TupleOrder

  /* ----- what the statistics should be ----- */

  ghost predicate Rows(s: seq<Tuple>, width: nat) { forall t :: t in s ==> |t| >= width }

  // The distinct values of the first column.
  ghost function Keys(s: seq<Tuple>): (r: set<nat>)
    requires Rows(s, 1)
  {
    set t | t in s :: t[0]
  }

  // How many rows have key k.
  ghost function Count(s: seq<Tuple>, k: nat): (r: nat)
    requires Rows(s, 1)
  {
    if s == [] then 0
    else
      var last := s[|s| - 1];
      assert last in s;
      assert forall t :: t in s[..|s| - 1] ==> t in s;
      Count(s[..|s| - 1], k) + if last[0] == k then 1 else 0
  }

  // The distinct second columns of the rows with key k.
  ghost function Values(s: seq<Tuple>, k: nat): (r: set<nat>)
    requires Rows(s, 2)
  {
    set t | t in s && t[0] == k :: t[1]
  }

  // A row may follow others if they stay in order.
  ghost predicate Follows(s: seq<Tuple>, t: Tuple) {
    s != [] ==> Less(s[|s| - 1], t)
  }

  lemma CountSnoc(s: seq<Tuple>, t: Tuple, k: nat)
    requires Rows(s, 1) && |t| >= 1
    ensures Rows(s + [t], 1) && Count(s + [t], k) == Count(s, k) + if t[0] == k then 1 else 0
  {
    assert (s + [t])[..|s|] == s;
  }

  lemma {:induction false} CountPositive(s: seq<Tuple>, k: nat)
    requires Rows(s, 1)
    ensures Count(s, k) > 0 <==> k in Keys(s)
  {
    if s != [] {
      var front, last := s[..|s| - 1], s[|s| - 1];
      assert s == front + [last];
      assert forall t :: t in front ==> t in s;
      assert last in s;
      CountPositive(front, k);
      assert Keys(s) == Keys(front) + {last[0]};
    }
  }

  /* ----- DistinctStat ----- */

  class DistinctStat {
    var all: nat
    var distinct: nat
    var current: nat
    ghost var seen: seq<Tuple>

    // Keys are never zero in the importers; a zero key would not be counted.
    ghost predicate Valid()
      reads this
    {
      && Rows(seen, 1) && all == |seen|
      && distinct == |Keys(seen) - {0}|
      && (if seen == [] then current == 0 else current == seen[|seen| - 1][0])
      && forall t :: t in seen ==> t[0] <= current
    }

    constructor ()
      ensures Valid() && seen == []
    {
      all, distinct, current, seen := 0, 0, 0, [];
    }

    method ProcessTuple(tuple: Tuple)
      requires Valid() && |tuple| >= 1 && Follows(seen, tuple)
      modifies this
      ensures Valid() && seen == old(seen) + [tuple]
    {
      hide Keys;
      KeysSnoc(seen, tuple, current);
      KeysGrow(seen, tuple, current);
      all := all + 1;
      if tuple[0] != current {
        distinct := distinct + 1;
        current := tuple[0];
      }
      seen := seen + [tuple];
    }
  }

  lemma KeysSnoc(s: seq<Tuple>, t: Tuple, current: nat)
    requires Rows(s, 1) && |t| >= 1 && Follows(s, t) && forall u :: u in s ==> u[0] <= current
    requires if s == [] then current == 0 else current == s[|s| - 1][0]
    ensures Rows(s + [t], 1) && current <= t[0] && Keys(s + [t]) == Keys(s) + {t[0]}
    ensures s == [] ==> Keys(s) == {}
    ensures s != [] ==> current in Keys(s)
    ensures t[0] != current ==> t[0] !in Keys(s)
  {
    assert s != [] ==> s[|s| - 1] in s;
  }

  // A key that follows in order is new exactly if it differs from the last one.
  lemma KeysGrow(s: seq<Tuple>, t: Tuple, current: nat)
    requires Rows(s, 1) && |t| >= 1 && Follows(s, t) && forall u :: u in s ==> u[0] <= current
    requires if s == [] then current == 0 else current == s[|s| - 1][0]
    ensures Rows(s + [t], 1) && |Keys(s + [t]) - {0}| == |Keys(s) - {0}| + if t[0] != current then 1 else 0
  {
    KeysSnoc(s, t, current);
    hide Keys;
    if t[0] != current {
      assert Keys(s + [t]) - {0} == (Keys(s) - {0}) + {t[0]};
    } else {
      assert Keys(s + [t]) - {0} == Keys(s) - {0};
    }
  }

  /* ----- DictCountStat, and with it LabelStat and PredicateStat, which have the same body ----- */

  class DictCountStat {
    var all: nat
    var count: nat
    var current: nat
    var dict: map<nat, nat>
    ghost var seen: seq<Tuple>

    ghost predicate Valid()
      reads this
    {
      && Rows(seen, 1) && all == |seen|
      && (if seen == [] then current == 0 else current == seen[|seen| - 1][0])
      && (forall t :: t in seen ==> t[0] <= current)
      && count == Count(seen, current)
      && Counts(dict, seen, {0, current})
    }

    // dict has the number of rows of every key that is not left out.
    static ghost predicate Counts(dict: map<nat, nat>, seen: seq<Tuple>, without: set<nat>)
      requires Rows(seen, 1)
    {
      && dict.Keys == Keys(seen) - without
      && forall k :: k in dict ==> dict[k] == Count(seen, k)
    }

    constructor ()
      ensures Valid() && seen == []
    {
      all, count, current, dict, seen := 0, 0, 0, map[], [];
    }

    method ProcessTuple(tuple: Tuple)
      requires Valid() && |tuple| >= 1 && Follows(seen, tuple)
      modifies this
      ensures Valid() && seen == old(seen) + [tuple]
    {
      hide Count, Keys;
      KeysSnoc(seen, tuple, current);
      CountsSnoc(seen, tuple);
      CountPositive(seen, tuple[0]);
      CountPositive(seen, current);
      all := all + 1;
      if tuple[0] == current {
        count := count + 1;
      } else {
        if current != 0 {
          dict := InsertNew(dict, current, count);
        }
        current := tuple[0];
        count := 1;
      }
      seen := seen + [tuple];
    }

    // After the last row the dictionary has the size of every group but the one of key zero.
    method End()
      requires Valid()
      modifies this`dict
      ensures Counts(dict, seen, {0})
    {
      CountPositive(seen, current);
      if current != 0 {
        dict := InsertNew(dict, current, count);
      }
    }
  }

  // The hash map's insert keeps an entry that is already there.
  function InsertNew(m: map<nat, nat>, k: nat, v: nat): (r: map<nat, nat>) {
    if k in m then m else m[k := v]
  }

  /* ----- PropStat ----- */

  class PropStat {
    var all: nat
    var currentValue: nat
    var keyCount: nat
    var distinctValues: nat
    var currentKey: nat
    var mapKeyCount: map<nat, nat>
    var mapDistinctValues: map<nat, nat>
    ghost var seen: seq<Tuple>

    ghost predicate Valid()
      reads this
    {
      && Rows(seen, 2) && all == |seen|
      && (if seen == [] then currentKey == 0 else currentKey == seen[|seen| - 1][0])
      && (forall t :: t in seen ==> t[0] <= currentKey)
      && keyCount == Count(seen, currentKey)
      && DictCountStat.Counts(mapKeyCount, seen, {0, currentKey})
      && ValueCounts(mapDistinctValues, seen, {0, currentKey})
      && (currentKey != 0 ==> Group(seen, currentKey, currentValue, distinctValues))
    }

    // The group being read: its last value is the greatest so far.
    static ghost predicate Group(seen: seq<Tuple>, key: nat, value: nat, distinct: nat)
      requires Rows(seen, 2)
    {
      && seen != [] && value == seen[|seen| - 1][1]
      && distinct == |Values(seen, key)|
      && forall t :: t in seen && t[0] == key ==> t[1] <= value
    }

    static ghost predicate ValueCounts(dict: map<nat, nat>, seen: seq<Tuple>, without: set<nat>)
      requires Rows(seen, 2)
    {
      && dict.Keys == Keys(seen) - without
      && forall k :: k in dict ==> dict[k] == |Values(seen, k)|
    }

    constructor ()
      ensures Valid() && seen == []
    {
      all, currentValue, keyCount, distinctValues, currentKey := 0, 0, 0, 0, 0;
      mapKeyCount, mapDistinctValues, seen := map[], map[], [];
    }

    // Another row of the group being read.
    method SameKey(tuple: Tuple)
      requires Valid() && |tuple| >= 2 && Follows(seen, tuple) && tuple[0] == currentKey
      modifies this
      ensures Valid() && seen == old(seen) + [tuple]
    {
      hide Keys, Count, Values;
      KeysSnoc(seen, tuple, currentKey);
      CountsSnoc(seen, tuple);
      if currentKey != 0 {
        ValuesGrow(seen, tuple, currentValue);
      }
      ValuesKept(seen, tuple);
      all := all + 1;
      keyCount := keyCount + 1;
      if tuple[1] != currentValue {
        distinctValues := distinctValues + 1;
        currentValue := tuple[1];
      }
      seen := seen + [tuple];
    }

    // The first row of a group: the one before it is complete.
    method NewKey(tuple: Tuple)
      requires Valid() && |tuple| >= 2 && Follows(seen, tuple) && tuple[0] != currentKey
      modifies this
      ensures Valid() && seen == old(seen) + [tuple]
    {
      hide Keys, Count, Values, DictCountStat.Counts, ValueCounts, Group;
      StartGroup(seen, tuple, currentKey);
      SaveKey();
      CountsStay(mapKeyCount, seen, tuple);
      ValueCountsStay(mapDistinctValues, seen, tuple);
      all := all + 1;
      currentKey := tuple[0];
      currentValue := tuple[1];
      keyCount := 1;
      distinctValues := 1;
      seen := seen + [tuple];
    }

    method ProcessTuple(tuple: Tuple)
      requires Valid() && |tuple| >= 2 && Follows(seen, tuple)
      modifies this
      ensures Valid() && seen == old(seen) + [tuple]
    {
      if tuple[0] == currentKey {
        SameKey(tuple);
      } else {
        NewKey(tuple);
      }
    }

    method End()
      requires Valid()
      modifies this`mapKeyCount, this`mapDistinctValues
      ensures DictCountStat.Counts(mapKeyCount, seen, {0})
      ensures ValueCounts(mapDistinctValues, seen, {0})
    {
      SaveKey();
    }

    // Saves the statistics of the last key.
    method SaveKey()
      requires Valid()
      modifies this`mapKeyCount, this`mapDistinctValues
      ensures DictCountStat.Counts(mapKeyCount, seen, {0})
      ensures ValueCounts(mapDistinctValues, seen, {0})
    {
      CountPositive(seen, currentKey);
      if currentKey != 0 {
        mapKeyCount := InsertNew(mapKeyCount, currentKey, keyCount);
        mapDistinctValues := InsertNew(mapDistinctValues, currentKey, distinctValues);
      }
    }
  }

  // A row with a new key is alone in its group.
  lemma StartGroup(s: seq<Tuple>, t: Tuple, current: nat)
    requires Rows(s, 2) && |t| >= 2 && Follows(s, t) && t[0] != current
    requires if s == [] then current == 0 else current == s[|s| - 1][0]
    requires forall u :: u in s ==> u[0] <= current
    ensures Rows(s + [t], 2) && t[0] !in Keys(s) && forall u :: u in s + [t] ==> u[0] <= t[0]
    ensures Count(s + [t], t[0]) == 1 && PropStat.Group(s + [t], t[0], t[1], 1)
  {
    hide Count, PropStat.Group;
    KeysSnoc(s, t, current);
    CountSnoc(s, t, t[0]);
    CountPositive(s, t[0]);
    FirstOfGroup(s, t);
  }

  lemma FirstOfGroup(s: seq<Tuple>, t: Tuple)
    requires Rows(s, 2) && |t| >= 2 && t[0] !in Keys(s)
    ensures Rows(s + [t], 2) && PropStat.Group(s + [t], t[0], t[1], 1)
  {
    OnlyValue(s, t);
    hide Keys, Values;
  }

  lemma OnlyValue(s: seq<Tuple>, t: Tuple)
    requires Rows(s, 2) && |t| >= 2 && t[0] !in Keys(s)
    ensures Rows(s + [t], 2) && Values(s + [t], t[0]) == {t[1]}
    ensures forall u :: u in s + [t] && u[0] == t[0] ==> u == t
  {
    forall u | u in s + [t] && u[0] == t[0] ensures u == t {
      assert u in s || u == t;
    }
    assert t in s + [t];
  }

  // The first row of a new group does not touch the groups before it.
  lemma CountsStay(dict: map<nat, nat>, s: seq<Tuple>, t: Tuple)
    requires Rows(s, 1) && |t| >= 1 && t[0] !in Keys(s) && DictCountStat.Counts(dict, s, {0})
    ensures Rows(s + [t], 1) && DictCountStat.Counts(dict, s + [t], {0, t[0]})
  {
    hide Count;
    CountsSnoc(s, t);
    assert Keys(s + [t]) == Keys(s) + {t[0]};
  }

  lemma ValueCountsStay(dict: map<nat, nat>, s: seq<Tuple>, t: Tuple)
    requires Rows(s, 2) && |t| >= 2 && t[0] !in Keys(s) && PropStat.ValueCounts(dict, s, {0})
    ensures Rows(s + [t], 2) && PropStat.ValueCounts(dict, s + [t], {0, t[0]})
  {
    ValuesKept(s, t);
    assert Keys(s + [t]) == Keys(s) + {t[0]};
  }

  lemma CountsSnoc(s: seq<Tuple>, t: Tuple)
    requires Rows(s, 1) && |t| >= 1
    ensures Rows(s + [t], 1)
    ensures forall k :: Count(s + [t], k) == Count(s, k) + if t[0] == k then 1 else 0
  {
    forall k ensures Count(s + [t], k) == Count(s, k) + if t[0] == k then 1 else 0 {
      CountSnoc(s, t, k);
    }
  }

  lemma ValuesKept(s: seq<Tuple>, t: Tuple)
    requires Rows(s, 2) && |t| >= 2
    ensures Rows(s + [t], 2)
    ensures forall k :: k != t[0] ==> Values(s + [t], k) == Values(s, k)
  {}

  // A value that follows in order within its group is new exactly if it differs from the last one.
  lemma ValuesGrow(s: seq<Tuple>, t: Tuple, value: nat)
    requires Rows(s, 2) && |t| >= 2 && s != [] && Follows(s, t)
    requires s[|s| - 1][0] == t[0] && s[|s| - 1][1] == value
    requires forall u :: u in s && u[0] == t[0] ==> u[1] <= value
    ensures value <= t[1]
    ensures |Values(s + [t], t[0])| == |Values(s, t[0])| + if t[1] != value then 1 else 0
  {
    var last := s[|s| - 1];
    assert last in s && Less(last[1..], t[1..]);
    assert Values(s + [t], t[0]) == Values(s, t[0]) + {t[1]};
    if t[1] != value {
      assert t[1] !in Values(s, t[0]);
    } else {
      assert Values(s + [t], t[0]) == Values(s, t[0]);
    }
  }

  /* ----- a whole index, in the order in which it is written ----- */

  // The rows up to i, and the next one.
  lemma NextRow(rows: seq<Tuple>, i: nat, width: nat)
    requires Rows(rows, width) && StrictlyIncreasing(rows) && i < |rows|
    ensures |rows[i]| >= width && Follows(rows[..i], rows[i]) && rows[..i + 1] == rows[..i] + [rows[i]]
  {
    assert rows[i] in rows;
  }

  lemma WholeSeq(rows: seq<Tuple>)
    ensures rows[..|rows|] == rows && rows[..0] == []
  {}

  method SummarizeKeys(rows: seq<Tuple>) returns (all: nat, distinct: nat)
    requires Rows(rows, 1) && StrictlyIncreasing(rows)
    ensures all == |rows| && distinct == |Keys(rows) - {0}|
  {
    hide Keys, Count, Values, Follows, Rows, StrictlyIncreasing, Less, AtMost;
    var stat := new DistinctStat();
    WholeSeq(rows);
    for i := 0 to |rows|
      invariant fresh(stat) && stat.Valid() && stat.seen == rows[..i]
    {
      NextRow(rows, i, 1);
      stat.ProcessTuple(rows[i]);
    }
    return stat.all, stat.distinct;
  }

  method SummarizeGroups(rows: seq<Tuple>) returns (all: nat, dict: map<nat, nat>)
    requires Rows(rows, 1) && StrictlyIncreasing(rows)
    ensures all == |rows| && dict.Keys == Keys(rows) - {0}
    ensures forall k :: k in dict ==> dict[k] == Count(rows, k)
  {
    hide Keys, Count, Values, Follows, Rows, StrictlyIncreasing, Less, AtMost;
    var stat := new DictCountStat();
    WholeSeq(rows);
    for i := 0 to |rows|
      invariant fresh(stat) && stat.Valid() && stat.seen == rows[..i]
    {
      NextRow(rows, i, 1);
      stat.ProcessTuple(rows[i]);
    }
    all := stat.all;
    stat.End();
    dict := stat.dict;
  }

  method SummarizeProperties(rows: seq<Tuple>)
    returns (all: nat, keyCount: map<nat, nat>, distinctValues: map<nat, nat>)
    requires Rows(rows, 2) && StrictlyIncreasing(rows)
    ensures all == |rows| && keyCount.Keys == distinctValues.Keys == Keys(rows) - {0}
    ensures forall k :: k in keyCount ==> keyCount[k] == Count(rows, k) && distinctValues[k] == |Values(rows, k)|
  {
    hide Keys, Count, Values, Follows, Rows, StrictlyIncreasing, Less, AtMost;
    var stat := new PropStat();
    WholeSeq(rows);
    for i := 0 to |rows|
      invariant fresh(stat) && stat.Valid() && stat.seen == rows[..i]
    {
      NextRow(rows, i, 2);
      stat.ProcessTuple(rows[i]);
    }
    all := stat.all;
    stat.End();
    keyCount, distinctValues := stat.mapKeyCount, stat.mapDistinctValues;
  }
}

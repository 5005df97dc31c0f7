// Column permutations of the index rows, and the moves the importer knows between them.
module Permutations {
  import opened TupleOrder

  predicate IsPermutation(p: seq<nat>, n: nat) {
    |p| == n && (forall i :: 0 <= i < n ==> p[i] < n) && forall i, j :: 0 <= i < j < n ==> p[i] != p[j]
  }

  function Identity(n: nat): (r: seq<nat>) { seq(n, i => i) }

  // A row with its columns in the order p.
  function View(t: Tuple, p: seq<nat>): (r: Tuple)
    requires IsPermutation(p, |t|)
  {
    seq(|t|, i requires 0 <= i < |t| => t[p[i]])
  }

  predicate Wide(rows: seq<Tuple>, n: nat) { forall i :: 0 <= i < |rows| ==> |rows[i]| == n }

  function Views(rows: seq<Tuple>, p: seq<nat>): (r: seq<Tuple>)
    requires Wide(rows, |p|) && IsPermutation(p, |p|)
    ensures |r| == |rows| && Wide(r, |p|)
  {
    seq(|rows|, i requires 0 <= i < |rows| => View(rows[i], p))
  }

  // The column moves of reorder_chunk; anything else is refused.
  datatype Move = Keep | Rotate | Swap01 | Swap02 | Swap12 | Unsupported

  function MoveBetween(from: seq<nat>, to: seq<nat>): (m: Move)
    requires 1 <= |from| <= 4 && |from| == |to|
  {
    if |from| == 1 then Keep
    else if |from| == 2 then
      if from[0] == to[0] then Keep else Swap01
    else if |from| == 3 then
      if to[0] == from[0] && to[1] == from[1] && to[2] == from[2] then Keep
      else if to[0] == from[1] && to[1] == from[2] && to[2] == from[0] then Rotate
      else if to[0] == from[1] && to[1] == from[0] && to[2] == from[2] then Swap01
      else if to[0] == from[2] && to[1] == from[1] && to[2] == from[0] then Swap02
      else Unsupported
    else
      if to[0] == from[0] && to[1] == from[1] && to[2] == from[2] && to[3] == from[3] then Keep
      else if to[0] == from[1] && to[1] == from[2] && to[2] == from[0] && to[3] == from[3] then Rotate
      else if to[0] == from[0] && to[1] == from[2] && to[2] == from[1] && to[3] == from[3] then Swap12
      else Unsupported
  }

  function Moved(t: Tuple, m: Move): (r: Tuple)
    requires m == Swap01 ==> |t| >= 2
    requires m in {Rotate, Swap02, Swap12} ==> |t| >= 3
    ensures |r| == |t|
  {
    match m
    case Rotate => t[0 := t[1]][1 := t[2]][2 := t[0]]
    case Swap01 => t[0 := t[1]][1 := t[0]]
    case Swap02 => t[0 := t[2]][2 := t[0]]
    case Swap12 => t[1 := t[2]][2 := t[1]]
    case _ => t
  }

  function MovedAll(rows: seq<Tuple>, m: Move): (r: seq<Tuple>)
    requires m == Swap01 ==> forall i :: 0 <= i < |rows| ==> |rows[i]| >= 2
    requires m in {Rotate, Swap02, Swap12} ==> forall i :: 0 <= i < |rows| ==> |rows[i]| >= 3
    ensures |r| == |rows|
  {
    seq(|rows|, i requires 0 <= i < |rows| => Moved(rows[i], m))
  }

  // A supported move turns the view through one permutation into the view through the other.
  lemma MoveChangesView(t: Tuple, from: seq<nat>, to: seq<nat>)
    requires 1 <= |t| <= 4 && IsPermutation(from, |t|) && IsPermutation(to, |t|)
    requires MoveBetween(from, to) != Unsupported
    ensures Moved(View(t, from), MoveBetween(from, to)) == View(t, to)
  {
    var v, m := View(t, from), MoveBetween(from, to);
    if |t| == 2 {
      assert {from[0], from[1]} == {0, 1} && {to[0], to[1]} == {0, 1};
      assert v == [t[from[0]], t[from[1]]];
      assert View(t, to) == [t[to[0]], t[to[1]]];
    } else if |t| == 3 {
      MoveChangesView3(t, from, to);
    } else if |t| == 4 {
      MoveChangesView4(t, from, to);
    } else {
      assert from == to == [0];
    }
  }

  lemma MoveChangesView3(t: Tuple, from: seq<nat>, to: seq<nat>)
    requires |t| == 3 && IsPermutation(from, |t|) && IsPermutation(to, |t|)
    requires MoveBetween(from, to) != Unsupported
    ensures Moved(View(t, from), MoveBetween(from, to)) == View(t, to)
  {
    hide Moved;
    var v := View(t, from);
    assert v == [t[from[0]], t[from[1]], t[from[2]]];
    assert View(t, to) == [t[to[0]], t[to[1]], t[to[2]]];
    MovedColumns(v, MoveBetween(from, to));
  }

  lemma MoveChangesView4(t: Tuple, from: seq<nat>, to: seq<nat>)
    requires |t| == 4 && IsPermutation(from, |t|) && IsPermutation(to, |t|)
    requires MoveBetween(from, to) != Unsupported
    ensures Moved(View(t, from), MoveBetween(from, to)) == View(t, to)
  {
    hide Moved;
    var v, m := View(t, from), MoveBetween(from, to);
    MovedColumns(v, m);
    var w := Moved(v, m);
    assert w[0] == t[to[0]] && w[1] == t[to[1]];
    assert w[2] == t[to[2]] && w[3] == t[to[3]];
  }

  lemma MovedColumns(v: Tuple, m: Move)
    requires |v| >= 3
    ensures Moved(v, m) ==
            match m
            case Rotate => [v[1], v[2], v[0]] + v[3..]
            case Swap01 => [v[1], v[0]] + v[2..]
            case Swap02 => [v[2], v[1], v[0]] + v[3..]
            case Swap12 => [v[0], v[2], v[1]] + v[3..]
            case _ => v
  {}

  // The columns of a row in the order p, rearranged: place i gets the column that was at place q[i].
  function Rearranged(p: seq<nat>, q: seq<nat>): (r: seq<nat>)
    requires forall i :: 0 <= i < |q| ==> q[i] < |p|
  {
    seq(|q|, i requires 0 <= i < |q| => p[q[i]])
  }

  // Up to two columns can be put in any order, three in four orders of the six, four in three of them.
  predicate Supported(from: seq<nat>, to: seq<nat>) {
    || |from| <= 2
    || (|from| == 3 &&
        (|| to == from
         || to == Rearranged(from, [1, 2, 0])
         || to == Rearranged(from, [1, 0, 2])
         || to == Rearranged(from, [2, 1, 0])))
    || (|from| == 4 &&
        (|| to == from
         || to == Rearranged(from, [1, 2, 0, 3])
         || to == Rearranged(from, [0, 2, 1, 3])))
  }

  // Which moves are not refused, whatever the order of the branches.
  lemma SupportedExactly(from: seq<nat>, to: seq<nat>)
    requires 1 <= |from| <= 4 && IsPermutation(from, |from|) && IsPermutation(to, |from|)
    ensures MoveBetween(from, to) != Unsupported <==> Supported(from, to)
  {
    hide Rearranged;
    if |from| == 3 {
      SameOrder3(from, to, [1, 2, 0]);
      SameOrder3(from, to, [1, 0, 2]);
      SameOrder3(from, to, [2, 1, 0]);
    } else if |from| == 4 {
      SameOrder4(from, to, [1, 2, 0, 3]);
      SameOrder4(from, to, [0, 2, 1, 3]);
    }
  }

  lemma SameOrder3(from: seq<nat>, to: seq<nat>, q: seq<nat>)
    requires |from| == |to| == |q| == 3 && forall i :: 0 <= i < 3 ==> q[i] < 3
    ensures to == Rearranged(from, q) <==> to[0] == from[q[0]] && to[1] == from[q[1]] && to[2] == from[q[2]]
  {
    var r := Rearranged(from, q);
    assert r[0] == from[q[0]] && r[1] == from[q[1]] && r[2] == from[q[2]];
  }

  lemma SameOrder4(from: seq<nat>, to: seq<nat>, q: seq<nat>)
    requires |from| == |to| == |q| == 4 && forall i :: 0 <= i < 4 ==> q[i] < 4
    ensures to == Rearranged(from, q) <==>
            to[0] == from[q[0]] && to[1] == from[q[1]] && to[2] == from[q[2]] && to[3] == from[q[3]]
  {
    var r := Rearranged(from, q);
    assert r[0] == from[q[0]] && r[1] == from[q[1]] && r[2] == from[q[2]] && r[3] == from[q[3]];
  }

  // The columns seen through a permutation determine the row.
  lemma ViewInjective(s: Tuple, t: Tuple, p: seq<nat>)
    requires |s| == |t| <= 4 && IsPermutation(p, |s|) && View(s, p) == View(t, p)
    ensures s == t
  {
    forall i | 0 <= i < |s| ensures s[i] == t[i] {
      var j := Where(p, i);
      assert View(s, p)[j] == View(t, p)[j];
    }
  }

  function Where(p: seq<nat>, i: nat): (j: nat)
    requires IsPermutation(p, |p|) && i < |p| <= 4
    ensures j < |p| && p[j] == i
  {
    if p[0] == i then 0
    else if |p| > 1 && p[1] == i then 1
    else if |p| > 2 && p[2] == i then 2
    else 3
  }

  // The triple indexes, in the order the RDF importer builds them, start from SPO.
  const TRIPLE_INDEXES: seq<seq<nat>> := [[0, 1, 2], [1, 2, 0], [2, 0, 1], [1, 0, 2], [0, 2, 1], [2, 1, 0]]

  // The edge indexes of the quad importer, from (from, to, type, edge).
  const EDGE_INDEXES: seq<seq<nat>> := [[0, 1, 2, 3], [1, 2, 0, 3], [2, 0, 1, 3], [2, 1, 0, 3]]

  // A plan is a sequence of permutations each of which can be made from the one before.
  ghost predicate Plan(from: seq<nat>, indexes: seq<seq<nat>>)
    decreases |indexes|
  {
    indexes == [] ||
    (&& IsPermutation(indexes[0], |from|)
     && 1 <= |from| <= 4 && MoveBetween(from, indexes[0]) != Unsupported
     && Plan(indexes[0], indexes[1..]))
  }

  // No step of the importers' sequences is refused. The triple indexes are all orders of three columns.
  lemma TriplePlan()
    ensures Plan(Identity(3), TRIPLE_INDEXES) && |TRIPLE_INDEXES| == 6
    ensures forall p :: IsPermutation(p, 3) <==> p in TRIPLE_INDEXES
  {
    forall p | IsPermutation(p, 3) ensures p in TRIPLE_INDEXES {
      assert p == [p[0], p[1], p[2]];
    }
    var p := TRIPLE_INDEXES;
    assert Identity(3) == [0, 1, 2];
    assert Plan(p[3], p[4..]) by {
      assert p[4..] == [p[4], p[5]] && p[5..] == [p[5]];
    }
    assert Plan(p[1], p[2..]) by {
      assert p[2..][1..] == p[3..] && p[3..][1..] == p[4..];
    }
    assert p[1..][1..] == p[2..];
  }

  lemma EdgePlan()
    ensures Plan(Identity(4), EDGE_INDEXES)
  {
    var e := EDGE_INDEXES;
    assert Identity(4) == [0, 1, 2, 3];
    assert Plan(e[1], e[2..]) by {
      assert e[2..] == [e[2], e[3]] && e[3..] == [e[3]];
    }
    assert e[1..][1..] == e[2..];
  }

  // The quad importer's properties, and its edges with two equal ends.
  const PROPERTY_INDEXES: seq<seq<nat>> := [[0, 1, 2], [1, 2, 0]]
  const EQUAL_INDEXES: seq<seq<nat>> := [[0, 1, 2], [1, 0, 2]]

  lemma PropertyPlan()
    ensures Plan(Identity(3), PROPERTY_INDEXES) && Plan(Identity(3), EQUAL_INDEXES)
  {
    assert Identity(3) == [0, 1, 2];
    assert PROPERTY_INDEXES[1..] == [[1, 2, 0]] && PROPERTY_INDEXES[1..][1..] == [];
    assert EQUAL_INDEXES[1..] == [[1, 0, 2]] && EQUAL_INDEXES[1..][1..] == [];
  }

  // Any sequence of indexes over one or two columns is a plan: nodes, labels, and triples with two equal terms.
  lemma {:induction false} ShortPlan(from: seq<nat>, indexes: seq<seq<nat>>)
    requires 1 <= |from| <= 2 && IsPermutation(from, |from|)
    requires forall k :: 0 <= k < |indexes| ==> IsPermutation(indexes[k], |from|)
    ensures Plan(from, indexes)
    decreases |indexes|
  {
    if indexes != [] {
      SupportedExactly(from, indexes[0]);
      ShortPlan(indexes[0], indexes[1..]);
    }
  }

  // Stopping early keeps a plan a plan: the importer builds three, four or six triple indexes.
  lemma {:induction false} PlanPrefix(from: seq<nat>, indexes: seq<seq<nat>>, n: nat)
    requires Plan(from, indexes) && n <= |indexes|
    ensures Plan(from, indexes[..n])
    decreases n
  {
    if n > 0 {
      PlanPrefix(indexes[0], indexes[1..], n - 1);
      assert indexes[..n][1..] == indexes[1..][..n - 1];
    }
  }
}

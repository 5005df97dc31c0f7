// The counters of the RDF catalog, kept up to date as triples come and go.
module Catalog {
  datatype Triple = Triple(s: nat, p: nat, o: nat)

  // What the catalog counts.
  datatype Kind = All | EqualSpo | EqualSp | EqualSo | EqualPo | WithPredicate(predicate_: nat) {
    predicate Has(t: Triple) {
      match this
      case All => true
      case EqualSpo => t.s == t.p == t.o
      case EqualSp => t.s == t.p
      case EqualSo => t.s == t.o
      case EqualPo => t.p == t.o
      case WithPredicate(p) => t.p == p
    }
  }

  ghost function Count(triples: set<Triple>, kind: Kind): (n: nat) {
    |set t | t in triples && kind.Has(t)|
  }

  lemma CountInserted(triples: set<Triple>, t: Triple, kind: Kind)
    requires t !in triples
    ensures Count(triples + {t}, kind) == Count(triples, kind) + if kind.Has(t) then 1 else 0
  {
    var before, after := set u | u in triples && kind.Has(u), set u | u in triples + {t} && kind.Has(u);
    assert after == if kind.Has(t) then before + {t} else before;
  }

  /* ----- sums over maps ----- */

  ghost function Least(keys: set<nat>): (k: nat)
    requires keys != {}
    ensures k in keys && forall j :: j in keys ==> k <= j
  {
    var k :| k in keys;
    if keys == {k} then k else
      assert keys == (keys - {k}) + {k};
      var j := Least(keys - {k});
      if j < k then j else k
  }

  ghost function Sum(m: map<nat, nat>): (n: nat)
    decreases |m.Keys|
  {
    if m.Keys == {} then 0
    else
      var k := Least(m.Keys);
      assert m.Keys == (m - {k}).Keys + {k};
      m[k] + Sum(m - {k})
  }

  // Any key can be taken out first.
  lemma {:induction false} SumWithout(m: map<nat, nat>, k: nat)
    requires k in m
    ensures Sum(m) == m[k] + Sum(m - {k})
    decreases |m.Keys|
  {
    hide Least;
    var l := Least(m.Keys);
    if l != k {
      assert m.Keys == (m - {l}).Keys + {l};
      SumWithout(m - {l}, k);
      assert (m - {k}).Keys == m.Keys - {k};
      LeastWithout(m.Keys, k);
      assert m - {l} - {k} == m - {k} - {l};
    }
  }

  lemma LeastWithout(keys: set<nat>, k: nat)
    requires k in keys && k != Least(keys)
    ensures keys - {k} != {} && Least(keys - {k}) == Least(keys)
  {
    assert Least(keys) in keys - {k};
  }

  lemma SumUpdated(m: map<nat, nat>, k: nat, v: nat)
    ensures Sum(m[k := v]) == v + Sum(m - {k})
    ensures Sum(m) == (if k in m then m[k] else 0) + Sum(m - {k})
  {
    SumWithout(m[k := v], k);
    assert m[k := v] - {k} == m - {k};
    if k in m {
      SumWithout(m, k);
    } else {
      assert m - {k} == m;
    }
  }

  /* ----- what the counters are ----- */

  datatype Counters = Counters(triples: nat, spo: nat, sp: nat, so: nat, po: nat)

  ghost predicate CountersOk(c: Counters, triples: set<Triple>) {
    && c.triples == Count(triples, All) && c.spo == Count(triples, EqualSpo) && c.sp == Count(triples, EqualSp)
    && c.so == Count(triples, EqualSo) && c.po == Count(triples, EqualPo)
  }

  // A predicate has an entry exactly if it has triples, and the entries add up to the number of triples.
  ghost predicate PredicatesOk(m: map<nat, nat>, triples: set<Triple>) {
    && (forall p: nat :: p in m <==> Count(triples, WithPredicate(p)) > 0)
    && (forall p: nat :: p in m ==> m[p] == Count(triples, WithPredicate(p)))
    && Sum(m) == Count(triples, All)
  }

  function Entry(m: map<nat, nat>, p: nat): (n: nat) { if p in m then m[p] else 0 }

  function WithEntry(m: map<nat, nat>, p: nat, n: nat): (r: map<nat, nat>) {
    if n == 0 then m - {p} else m[p := n]
  }

  // Adding a triple adds one to the entry of its predicate.
  lemma PredicateInserted(m: map<nat, nat>, triples: set<Triple>, t: Triple)
    requires t !in triples && PredicatesOk(m, triples)
    ensures PredicatesOk(m[t.p := Entry(m, t.p) + 1], triples + {t})
  {
    hide Count, Sum;
    CountersChanged(triples, t);
    SumUpdated(m, t.p, Entry(m, t.p) + 1);
  }

  // Taking it away undoes that; an entry that would be zero goes.
  lemma PredicateDeleted(m: map<nat, nat>, triples: set<Triple>, t: Triple)
    requires t !in triples && PredicatesOk(m, triples + {t})
    ensures t.p in m && m[t.p] > 0 && PredicatesOk(WithEntry(m, t.p, m[t.p] - 1), triples)
  {
    hide Count, Sum;
    CountersChanged(triples, t);
    assert WithPredicate(t.p).Has(t);
    SumUpdated(m, t.p, m[t.p] - 1);
  }

  lemma CountersChanged(triples: set<Triple>, t: Triple)
    requires t !in triples
    ensures forall kind :: Count(triples + {t}, kind) == Count(triples, kind) + if kind.Has(t) then 1 else 0
  {
    forall kind ensures Count(triples + {t}, kind) == Count(triples, kind) + if kind.Has(t) then 1 else 0 {
      CountInserted(triples, t, kind);
    }
  }

  class RdfCatalog {
    var triplesCount: nat
    var equalSpoCount: nat
    var equalSpCount: nat
    var equalSoCount: nat
    var equalPoCount: nat
    var predicate2totalCount: map<nat, nat>

    ghost var triples: set<Triple>

    ghost predicate Valid()
      reads this
    {
      && CountersValid(triples)
      && PredicatesOk(predicate2totalCount, triples)
    }

    constructor ()
      ensures Valid() && triples == {}
    {
      triplesCount, equalSpoCount, equalSpCount, equalSoCount, equalPoCount := 0, 0, 0, 0, 0;
      predicate2totalCount, triples := map[], {};
    }

    ghost predicate CountersValid(all: set<Triple>)
      reads `triplesCount, `equalSpoCount, `equalSpCount, `equalSoCount, `equalPoCount
    {
      CountersOk(Counters(triplesCount, equalSpoCount, equalSpCount, equalSoCount, equalPoCount), all)
    }

    method InsertTriple(s: nat, p: nat, o: nat)
      requires Valid() && Triple(s, p, o) !in triples
      modifies this
      ensures Valid() && triples == old(triples) + {Triple(s, p, o)}
    {
      hide Count, PredicatesOk;
      PredicateInserted(predicate2totalCount, triples, Triple(s, p, o));
      CountUp(s, p, o, triples);
      predicate2totalCount := predicate2totalCount[p := Entry(predicate2totalCount, p) + 1];
      triples := triples + {Triple(s, p, o)};
    }

    method CountUp(s: nat, p: nat, o: nat, ghost all: set<Triple>)
      requires CountersValid(all) && Triple(s, p, o) !in all
      modifies `triplesCount, `equalSpoCount, `equalSpCount, `equalSoCount, `equalPoCount
      ensures CountersValid(all + {Triple(s, p, o)})
    {
      hide Count;
      CountersChanged(all, Triple(s, p, o));
      triplesCount := triplesCount + 1;
      if s == p {
        equalSpCount := equalSpCount + 1;
        if p == o {
          equalSpoCount := equalSpoCount + 1;
        }
      }
      if s == o {
        equalSoCount := equalSoCount + 1;
      }
      if p == o {
        equalPoCount := equalPoCount + 1;
      }
    }

    // The triple must be there.
    method DeleteTriple(s: nat, p: nat, o: nat)
      requires Valid() && Triple(s, p, o) in triples
      modifies this
      ensures Valid() && triples == old(triples) - {Triple(s, p, o)}
    {
      hide Count, PredicatesOk;
      ghost var rest := triples - {Triple(s, p, o)};
      assert triples == rest + {Triple(s, p, o)};
      PredicateDeleted(predicate2totalCount, rest, Triple(s, p, o));
      CountDown(s, p, o, rest);
      predicate2totalCount := predicate2totalCount[p := predicate2totalCount[p] - 1];
      if predicate2totalCount[p] == 0 {
        predicate2totalCount := predicate2totalCount - {p};
        assert predicate2totalCount == old(predicate2totalCount) - {p};
      }
      triples := rest;
    }

    method CountDown(s: nat, p: nat, o: nat, ghost rest: set<Triple>)
      requires CountersValid(rest + {Triple(s, p, o)}) && Triple(s, p, o) !in rest
      modifies `triplesCount, `equalSpoCount, `equalSpCount, `equalSoCount, `equalPoCount
      ensures CountersValid(rest)
    {
      hide Count;
      CountersChanged(rest, Triple(s, p, o));
      triplesCount := triplesCount - 1;
      if s == p {
        equalSpCount := equalSpCount - 1;
        if p == o {
          equalSpoCount := equalSpoCount - 1;
        }
      }
      if s == o {
        equalSoCount := equalSoCount - 1;
      }
      if p == o {
        equalPoCount := equalPoCount - 1;
      }
    }
  }
}

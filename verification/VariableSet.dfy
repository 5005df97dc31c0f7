// Sets of variables as bit vectors, and the iterator over their members. The operations on machine
// words are given by what they do to the binary digits.
module VariableSet {
  import opened Arithmetic

  const WORD: nat := 64

  /* ----- binary digits ----- */

  predicate Bit(w: nat, i: nat)
    decreases i
  {
    if i == 0 then w % 2 == 1 else Bit(w / 2, i - 1)
  }

  function And(a: nat, b: nat): (r: nat) {
    if a == 0 || b == 0 then 0 else 2 * And(a / 2, b / 2) + a % 2 * (b % 2)
  }

  function AndNot(a: nat, b: nat): (r: nat) {
    if a == 0 || b == 0 then a else 2 * AndNot(a / 2, b / 2) + a % 2 * (1 - b % 2)
  }

  function ShiftRight(w: nat, n: nat): (r: nat)
    decreases n
  {
    if n == 0 then w else ShiftRight(w / 2, n - 1)
  }

  function TrailingZeros(w: nat): (n: nat)
    requires w > 0
  {
    if w % 2 == 1 then 0 else 1 + TrailingZeros(w / 2)
  }

  lemma {:induction false} ZeroHasNoBits(i: nat)
    ensures !Bit(0, i)
  {
    if i > 0 {
      ZeroHasNoBits(i - 1);
    }
  }

  lemma {:induction false} BitsOfAnd(a: nat, b: nat, i: nat)
    ensures Bit(And(a, b), i) <==> Bit(a, i) && Bit(b, i)
  {
    ZeroHasNoBits(i);
    if a != 0 && b != 0 && i > 0 {
      BitsOfAnd(a / 2, b / 2, i - 1);
      assert And(a, b) / 2 == And(a / 2, b / 2);
    }
  }

  lemma {:induction false} BitsOfOr(a: nat, b: nat, i: nat)
    ensures Bit(Or(a, b), i) <==> Bit(a, i) || Bit(b, i)
    decreases i
  {
    ZeroHasNoBits(i);
    if a != 0 && b != 0 && i > 0 {
      BitsOfOr(a / 2, b / 2, i - 1);
      assert Or(a, b) / 2 == Or(a / 2, b / 2);
    }
  }

  lemma {:induction false} BitsOfAndNot(a: nat, b: nat, i: nat)
    ensures Bit(AndNot(a, b), i) <==> Bit(a, i) && !Bit(b, i)
  {
    ZeroHasNoBits(i);
    if a != 0 && b != 0 && i > 0 {
      BitsOfAndNot(a / 2, b / 2, i - 1);
      assert AndNot(a, b) / 2 == AndNot(a / 2, b / 2);
    }
  }

  lemma {:induction false} BitsOfPow2(i: nat, j: nat)
    ensures Bit(Pow2(i), j) <==> i == j
  {
    if i > 0 && j > 0 {
      BitsOfPow2(i - 1, j - 1);
      assert Pow2(i) / 2 == Pow2(i - 1);
    } else if j > 0 {
      ZeroHasNoBits(j - 1);
    }
  }

  lemma {:induction false} BitsOfShift(w: nat, n: nat, i: nat)
    ensures Bit(ShiftRight(w, n), i) <==> Bit(w, n + i)
  {
    if n > 0 {
      BitsOfShift(w / 2, n - 1, i);
    }
  }

  lemma {:induction false} ShiftTwice(w: nat, m: nat, n: nat)
    ensures ShiftRight(ShiftRight(w, m), n) == ShiftRight(w, m + n)
  {
    if m > 0 {
      ShiftTwice(w / 2, m - 1, n);
    }
  }

  // The first bit that is set is the first one.
  lemma {:induction false} FirstBit(w: nat)
    requires w > 0
    ensures Bit(w, TrailingZeros(w)) && ShiftRight(w, TrailingZeros(w)) % 2 == 1
    ensures forall j :: 0 <= j < TrailingZeros(w) ==> !Bit(w, j)
  {
    if w % 2 == 0 {
      FirstBit(w / 2);
      forall j | 0 <= j < TrailingZeros(w) ensures !Bit(w, j) {
        assert j > 0 ==> !Bit(w / 2, j - 1);
      }
    }
  }

  // A word has no bits beyond its size.
  lemma {:induction false} BitsBelow(w: nat, n: nat)
    requires w < Pow2(n)
    ensures ShiftRight(w, n) == 0
  {
    if n > 0 {
      BitsBelow(w / 2, n - 1);
    }
  }

  lemma {:induction false} WordsStaySmall(a: nat, b: nat, n: nat)
    requires a < Pow2(n) && b < Pow2(n)
    ensures And(a, b) < Pow2(n) && Or(a, b) < Pow2(n) && AndNot(a, b) < Pow2(n)
  {
    if n > 0 && a != 0 && b != 0 {
      WordsStaySmall(a / 2, b / 2, n - 1);
    }
  }

  lemma {:induction false} Pow2Increases(i: nat, j: nat)
    requires i < j
    ensures Pow2(i) < Pow2(j)
  {
    if i < j - 1 {
      Pow2Increases(i, j - 1);
    }
  }

  /* ----- sets ----- */

  predicate In(words: seq<nat>, id: nat) {
    id / WORD < |words| && Bit(words[id / WORD], id % WORD)
  }

  ghost predicate WordsOk(words: seq<nat>) {
    forall i :: 0 <= i < |words| ==> words[i] < Pow2(WORD)
  }

  // More words of zeros have no more members.
  lemma PaddedMembers(words: seq<nat>, more: seq<nat>)
    requires words <= more && forall i :: |words| <= i < |more| ==> more[i] == 0
    ensures forall v: nat :: In(more, v) <==> In(words, v)
  {
    forall v: nat ensures In(more, v) <==> In(words, v) {
      ZeroHasNoBits(v % WORD);
    }
  }

  lemma InsertedMembers(words: seq<nat>, id: nat)
    requires WordsOk(words) && id / WORD < |words|
    ensures var more := words[id / WORD := Or(words[id / WORD], Pow2(id % WORD))];
            WordsOk(more) && forall v: nat :: In(more, v) <==> In(words, v) || v == id
  {
    var q, r := id / WORD, id % WORD;
    Pow2Increases(r, WORD);
    WordsStaySmall(words[q], Pow2(r), WORD);
    hide Or, Pow2, Bit;
    var more := words[q := Or(words[q], Pow2(r))];
    forall v: nat ensures In(more, v) <==> In(words, v) || v == id {
      BitsOfOr(words[q], Pow2(r), v % WORD);
      BitsOfPow2(r, v % WORD);
    }
  }

  function WordAt(words: seq<nat>, i: nat): (w: nat) { if i < |words| then words[i] else 0 }

  // Sets given word by word are given member by member.
  lemma Wordwise(a: seq<nat>, b: seq<nat>, r: seq<nat>)
    requires WordsOk(a) && WordsOk(b)
    ensures |r| <= |a| && |r| <= |b| && (forall i :: |r| <= i ==> And(WordAt(a, i), WordAt(b, i)) == 0)
            && (forall i :: 0 <= i < |r| ==> r[i] == And(WordAt(a, i), WordAt(b, i))) ==>
              WordsOk(r) && forall v: nat :: In(r, v) <==> In(a, v) && In(b, v)
    ensures (|r| >= |a| && |r| >= |b| && forall i :: 0 <= i < |r| ==> r[i] == Or(WordAt(a, i), WordAt(b, i))) ==>
              WordsOk(r) && forall v: nat :: In(r, v) <==> In(a, v) || In(b, v)
    ensures (|r| == |a| && forall i :: 0 <= i < |r| ==> r[i] == AndNot(WordAt(a, i), WordAt(b, i))) ==>
              WordsOk(r) && forall v: nat :: In(r, v) <==> In(a, v) && !In(b, v)
  {
    hide And, Or, AndNot, Bit;
    forall i: nat
      ensures And(WordAt(a, i), WordAt(b, i)) < Pow2(WORD) && Or(WordAt(a, i), WordAt(b, i)) < Pow2(WORD)
      ensures AndNot(WordAt(a, i), WordAt(b, i)) < Pow2(WORD)
    {
      WordsStaySmall(WordAt(a, i), WordAt(b, i), WORD);
    }
    forall v: nat
      ensures In(a, v) <==> Bit(WordAt(a, v / WORD), v % WORD)
      ensures In(b, v) <==> Bit(WordAt(b, v / WORD), v % WORD)
      ensures In(r, v) <==> Bit(WordAt(r, v / WORD), v % WORD)
      ensures Bit(And(WordAt(a, v / WORD), WordAt(b, v / WORD)), v % WORD) <==> In(a, v) && In(b, v)
      ensures Bit(Or(WordAt(a, v / WORD), WordAt(b, v / WORD)), v % WORD) <==> In(a, v) || In(b, v)
      ensures Bit(AndNot(WordAt(a, v / WORD), WordAt(b, v / WORD)), v % WORD) <==> In(a, v) && !In(b, v)
    {
      ZeroHasNoBits(v % WORD);
      BitsOfAnd(WordAt(a, v / WORD), WordAt(b, v / WORD), v % WORD);
      BitsOfOr(WordAt(a, v / WORD), WordAt(b, v / WORD), v % WORD);
      BitsOfAndNot(WordAt(a, v / WORD), WordAt(b, v / WORD), v % WORD);
    }
  }

  class VariableSet {
    var variables: seq<nat>

    ghost predicate Valid()
      reads this
    {
      WordsOk(variables)
    }

    ghost predicate Contains(id: nat)
      reads this
    {
      In(variables, id)
    }

    constructor (vars: seq<nat>)
      ensures Valid() && forall v: nat :: Contains(v) <==> v in vars
    {
      variables := [];
      new;
      for i := 0 to |vars|
        invariant Valid() && forall v: nat :: Contains(v) <==> v in vars[..i]
      {
        assert vars[..i + 1] == vars[..i] + [vars[i]];
        Insert(vars[i]);
      }
    }

    constructor Sized(size: nat)
      ensures Valid() && variables == seq(size, _ => 0)
    {
      variables := seq(size, _ => 0);
    }

    method Insert(id: nat)
      requires Valid()
      modifies this
      ensures Valid() && forall v: nat :: Contains(v) <==> old(Contains(v)) || v == id
    {
      hide In, Or, Pow2;
      while id >= |variables| * WORD
        invariant Valid() && old(variables) <= variables
        invariant forall i :: |old(variables)| <= i < |variables| ==> variables[i] == 0
        decreases id - |variables| * WORD
      {
        variables := variables + [0];
      }
      PaddedMembers(old(variables), variables);
      InsertedMembers(variables, id);
      var vecIdx, intIdx := id / WORD, id % WORD;
      variables := variables[vecIdx := Or(variables[vecIdx], Pow2(intIdx))];
    }

    method Intersection(other: VariableSet) returns (res: VariableSet)
      requires Valid() && other.Valid()
      ensures fresh(res) && res.Valid() && forall v: nat :: res.Contains(v) <==> Contains(v) && other.Contains(v)
    {
      hide In, And, Or, AndNot;
      var minSize := if |variables| <= |other.variables| then |variables| else |other.variables|;
      res := new VariableSet.Sized(minSize);
      for i := 0 to minSize
        invariant |res.variables| == minSize
        invariant forall j :: 0 <= j < i ==> res.variables[j] == And(variables[j], other.variables[j])
      {
        res.variables := res.variables[i := And(variables[i], other.variables[i])];
      }
      AndZero(variables, other.variables, minSize);
      Wordwise(variables, other.variables, res.variables);
    }

    method Union(other: VariableSet) returns (res: VariableSet)
      requires Valid() && other.Valid()
      ensures fresh(res) && res.Valid() && forall v: nat :: res.Contains(v) <==> Contains(v) || other.Contains(v)
    {
      hide In, And, Or, AndNot;
      var minSize := if |variables| <= |other.variables| then |variables| else |other.variables|;
      var maxSize := if |variables| <= |other.variables| then |other.variables| else |variables|;
      res := new VariableSet.Sized(maxSize);
      OrZero();
      for i := 0 to minSize
        invariant |res.variables| == maxSize
        invariant forall j :: 0 <= j < i ==> res.variables[j] == Or(WordAt(variables, j), WordAt(other.variables, j))
      {
        res.variables := res.variables[i := Or(variables[i], other.variables[i])];
      }
      for i := minSize to |variables|
        invariant |res.variables| == maxSize
        invariant forall j :: 0 <= j < minSize || minSize <= j < i ==>
                    res.variables[j] == Or(WordAt(variables, j), WordAt(other.variables, j))
      {
        res.variables := res.variables[i := variables[i]];
      }
      for i := minSize to |other.variables|
        invariant |res.variables| == maxSize
        invariant forall j :: 0 <= j < |variables| || minSize <= j < i ==>
                    res.variables[j] == Or(WordAt(variables, j), WordAt(other.variables, j))
      {
        res.variables := res.variables[i := other.variables[i]];
      }
      Wordwise(variables, other.variables, res.variables);
    }

    method Difference(other: VariableSet) returns (res: VariableSet)
      requires Valid() && other.Valid()
      ensures fresh(res) && res.Valid() && forall v: nat :: res.Contains(v) <==> Contains(v) && !other.Contains(v)
    {
      hide In, And, Or, AndNot;
      var minSize := if |variables| <= |other.variables| then |variables| else |other.variables|;
      res := new VariableSet.Sized(0);
      res.variables := variables;
      AndNotZero();
      for i := 0 to minSize
        invariant |res.variables| == |variables|
        invariant forall j :: 0 <= j < i ==>
            res.variables[j] == AndNot(WordAt(variables, j), WordAt(other.variables, j))
        invariant forall j :: i <= j < |variables| ==> res.variables[j] == variables[j]
      {
        res.variables := res.variables[i := AndNot(variables[i], other.variables[i])];
      }
      Wordwise(variables, other.variables, res.variables);
    }
  }

  lemma AndZero(a: seq<nat>, b: seq<nat>, n: nat)
    requires n >= |a| || n >= |b|
    ensures forall i :: n <= i ==> And(WordAt(a, i), WordAt(b, i)) == 0
  {}

  lemma OrZero()
    ensures forall a: nat :: Or(a, 0) == a && Or(0, a) == a
  {}

  lemma AndNotZero()
    ensures forall a: nat :: AndNot(a, 0) == a
  {}

  /* ----- iteration ----- */

  // No member from lo up to hi.
  ghost predicate NoneIn(words: seq<nat>, lo: nat, hi: nat) {
    forall v: nat :: lo <= v < hi ==> !In(words, v)
  }

  // The bits that are left of word i after at of them have been shifted out.
  predicate Shifted(words: seq<nat>, i: nat, at: nat, current: nat) {
    i < |words| && at <= WORD && current == ShiftRight(words[i], at)
  }

  // When no bits are left there are no more members in the word.
  lemma NothingLeft(words: seq<nat>, i: nat, at: nat)
    requires Shifted(words, i, at, 0)
    ensures NoneIn(words, i * WORD + at, (i + 1) * WORD)
  {
    forall v: nat | i * WORD + at <= v < (i + 1) * WORD ensures !In(words, v) {
      var k := v - i * WORD;
      DivModUnique(i, k, WORD);
      BitsOfShift(words[i], at, k - at);
      ZeroHasNoBits(k - at);
    }
  }

  // The next member is as many places on as there are zeros.
  lemma NextMember(words: seq<nat>, i: nat, at: nat, current: nat)
    requires WordsOk(words) && Shifted(words, i, at, current) && current > 0
    ensures var n := TrailingZeros(current);
            && at + n < WORD && In(words, i * WORD + at + n) && NoneIn(words, i * WORD + at, i * WORD + at + n)
            && Shifted(words, i, at + n, ShiftRight(current, n)) && ShiftRight(current, n) % 2 == 1
  {
    hide Bit, ShiftRight, TrailingZeros, Pow2;
    var n := TrailingZeros(current);
    FirstBit(current);
    BitsOfShift(words[i], at, n);
    InsideWord(words[i], at + n);
    ShiftTwice(words[i], at, n);
    DivModUnique(i, at + n, WORD);
    forall v: nat | i * WORD + at <= v < i * WORD + at + n ensures !In(words, v) {
      var k := v - i * WORD;
      DivModUnique(i, k, WORD);
      BitsOfShift(words[i], at, k - at);
    }
  }

  lemma InsideWord(w: nat, k: nat)
    requires w < Pow2(WORD) && Bit(w, k)
    ensures k < WORD
  {
    if k >= WORD {
      BitsBelow(w, WORD);
      BitsOfShift(w, WORD, k - WORD);
      ZeroHasNoBits(k - WORD);
    }
  }

  class VariableSetIterator {
    const variableSet: VariableSet
    var vecIdx: nat
    var current: nat
    var currentIdx: nat

    ghost predicate AtEnd()
      reads this, variableSet
    {
      vecIdx == |variableSet.variables| && currentIdx == 0
    }

    // At a member of the set.
    ghost predicate AtMember()
      reads this, variableSet
    {
      && Shifted(variableSet.variables, vecIdx, currentIdx, current) && currentIdx < WORD && current % 2 == 1
      && variableSet.Contains(Position())
    }

    ghost function Position(): (p: nat)
      reads this
    {
      vecIdx * WORD + currentIdx
    }

    // The first member at or after a place, or the end if there is none.
    ghost predicate AtFirstFrom(lo: nat)
      reads this, variableSet
    {
      && (AtMember() || AtEnd()) && lo <= Position() + (if AtEnd() then lo else 0)
      && NoneIn(variableSet.variables, lo, if AtMember() then Position() else |variableSet.variables| * WORD)
    }

    constructor Begin(set_: VariableSet)
      requires set_.Valid()
      ensures variableSet == set_ && AtFirstFrom(0)
    {
      variableSet := set_;
      vecIdx, current, currentIdx := 0, 0, 0;
      new;
      if |variableSet.variables| == 0 {
        return;
      }
      current := variableSet.variables[0];
      if current % 2 == 0 {
        Advance();
      } else {
        assert Bit(variableSet.variables[0], 0);
      }
    }

    constructor End(set_: VariableSet)
      ensures variableSet == set_ && AtEnd() && currentIdx == 0 && vecIdx == |set_.variables|
    {
      variableSet := set_;
      vecIdx, current, currentIdx := |set_.variables|, 0, 0;
    }

    // Moves on to the next member, or to the end.
    method Advance()
      requires variableSet.Valid() && currentIdx < WORD && Shifted(variableSet.variables, vecIdx, currentIdx, current)
      modifies this
      ensures AtFirstFrom(old(Position()) + 1)
    {
      ghost var words := variableSet.variables;
      ghost var lo := Position() + 1;
      ShiftTwice(words[vecIdx], currentIdx, 1);
      current := current / 2;
      currentIdx := currentIdx + 1;
      while current == 0
        invariant Shifted(words, vecIdx, currentIdx, current) && words == variableSet.variables
        invariant lo <= Position() && NoneIn(words, lo, Position())
        decreases |words| - vecIdx
      {
        NothingLeft(words, vecIdx, currentIdx);
        vecIdx := vecIdx + 1;
        currentIdx := 0;
        if vecIdx == |variableSet.variables| {
          return;
        }
        current := variableSet.variables[vecIdx];
      }
      var tz := TrailingZeros(current);
      NextMember(words, vecIdx, currentIdx, current);
      current := ShiftRight(current, tz);
      currentIdx := currentIdx + tz;
    }

    method Differs(rhs: VariableSetIterator) returns (differs: bool)
      ensures differs <==> currentIdx != rhs.currentIdx || vecIdx != rhs.vecIdx
    {
      differs := currentIdx != rhs.currentIdx || vecIdx != rhs.vecIdx;
    }
  }

  // The list holds the members below lo, in increasing order.
  ghost predicate Listed(list: seq<nat>, words: seq<nat>, lo: nat) {
    && (forall i, j :: 0 <= i < j < |list| ==> list[i] < list[j])
    && (forall i :: 0 <= i < |list| ==> list[i] < lo)
    && forall v: nat :: v in list <==> v < lo && In(words, v)
  }

  lemma ListedMore(list: seq<nat>, words: seq<nat>, lo: nat, v: nat)
    requires Listed(list, words, lo) && lo <= v && NoneIn(words, lo, v) && In(words, v)
    ensures Listed(list + [v], words, v + 1)
  {
    hide In;
  }

  lemma ListedAll(list: seq<nat>, words: seq<nat>, lo: nat)
    requires Listed(list, words, lo) && NoneIn(words, lo, |words| * WORD)
    ensures forall v: nat :: v in list <==> In(words, v)
  {
    forall v: nat | In(words, v) ensures v < |words| * WORD {
      assert v / WORD < |words|;
    }
  }

  // Going from the beginning to the end visits every member once, in increasing order.
  method Members(set_: VariableSet) returns (list: seq<nat>)
    requires set_.Valid()
    ensures forall i, j :: 0 <= i < j < |list| ==> list[i] < list[j]
    ensures forall v: nat :: v in list <==> set_.Contains(v)
  {
    hide In, NoneIn, Shifted, Listed;
    var it := new VariableSetIterator.Begin(set_);
    var end := new VariableSetIterator.End(set_);
    list := [];
    ghost var lo := 0;
    NothingListed(set_.variables);
    var more := it.Differs(end);
    while more
      invariant it.variableSet == set_ && it.AtFirstFrom(lo) && end.AtEnd() && end.variableSet == set_
      invariant more <==> it.currentIdx != end.currentIdx || it.vecIdx != end.vecIdx
      invariant Listed(list, set_.variables, lo)
      decreases |set_.variables| * WORD - lo
    {
      ListedMore(list, set_.variables, lo, it.Position());
      InRange(set_.variables, it.Position());
      list := list + [it.vecIdx * WORD + it.currentIdx];
      lo := it.Position() + 1;
      ListStep(it);
      it.Advance();
      more := it.Differs(end);
    }
    ListEnd(it);
    ListedAll(list, set_.variables, lo);
    Increasing(list, set_.variables, lo);
  }

  lemma NothingListed(words: seq<nat>)
    ensures Listed([], words, 0)
  {}

  lemma Increasing(list: seq<nat>, words: seq<nat>, lo: nat)
    requires Listed(list, words, lo)
    ensures forall i, j :: 0 <= i < j < |list| ==> list[i] < list[j]
  {}

  lemma InRange(words: seq<nat>, v: nat)
    requires In(words, v)
    ensures v < |words| * WORD
  {}

  lemma ListStep(it: VariableSetIterator)
    requires it.AtMember()
    ensures Shifted(it.variableSet.variables, it.vecIdx, it.currentIdx, it.current) && it.currentIdx < WORD
  {}

  // An iterator that does not differ from the end is not at a member.
  lemma ListEnd(it: VariableSetIterator)
    ensures it.AtEnd() ==> !it.AtMember()
  {}
}

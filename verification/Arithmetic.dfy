// The nonlinear facts about blocks and runs that the storage layouts rely on.
module Arithmetic {
  // Distinct multiples of c are at least c apart.
  lemma {:induction false} MulGap(a: nat, b: nat, c: nat)
    requires a < b
    ensures a * c + c <= b * c
    decreases b
  {
    if a + 1 < b {
      MulGap(a, b - 1, c);
    }
    assert b * c == (b - 1) * c + c;
  }

  // Quotient and remainder are unique.
  lemma DivModUnique(q: nat, r: nat, d: nat)
    requires r < d
    ensures (q * d + r) / d == q && (q * d + r) % d == r
  {
    var x := q * d + r;
    var q', r' := x / d, x % d;
    assert x == q' * d + r';
    if q < q' {
      MulGap(q, q', d);
    } else if q' < q {
      MulGap(q', q, d);
    }
  }

  function Pow2(n: nat): (r: nat)
    ensures r > 0
  {
    if n == 0 then 1 else 2 * Pow2(n - 1)
  }

  function Pow256(n: nat): (r: nat)
    ensures r > 0
  {
    if n == 0 then 1 else 256 * Pow256(n - 1)
  }

  lemma DivDiv(v: nat, p: nat)
    requires p > 0
    ensures v / 256 / p == v / (256 * p)
  {
    var q, r := v / 256, v % 256;
    var a, b := q / p, q % p;
    assert v == 256 * (a * p + b) + r == a * (256 * p) + (256 * b + r);
    assert 256 * b + r < 256 * p;
    DivModUnique(a, 256 * b + r, 256 * p);
  }

  // Bitwise or.
  function Or(a: nat, b: nat): (r: nat)
    decreases a + b
  {
    if a == 0 then b
    else if b == 0 then a
    else 2 * Or(a / 2, b / 2) + if a % 2 == 1 || b % 2 == 1 then 1 else 0
  }

  function DivUp(a: nat, b: nat): (r: nat)
    requires b > 0
  {
    a / b + if a % b != 0 then 1 else 0
  }

  // The size of the last, possibly partial, group when a items are cut into groups of b.
  function LastGroup(a: nat, b: nat): (r: nat)
    requires b > 0
  {
    if a % b == 0 then b else a % b
  }

  lemma Groups(a: nat, b: nat)
    requires a > 0 && b > 0
    ensures DivUp(a, b) > 0 && 1 <= LastGroup(a, b) <= b
    ensures a == (DivUp(a, b) - 1) * b + LastGroup(a, b)
    ensures DivUp(a, b) - 1 == (a - 1) / b
  {
    var q, r := a / b, a % b;
    DivideBack(a, b);
    if r == 0 {
      WholeGroups(q, b);
    } else {
      DivModUnique(q, r - 1, b);
    }
  }

  lemma DivideBack(a: nat, b: nat)
    requires b > 0
    ensures a / b * b + a % b == a
  {}

  lemma WholeGroups(q: nat, b: nat)
    requires b > 0
    ensures q * b > 0 ==> q > 0 && q * b == (q - 1) * b + b && (q * b - 1) / b == q - 1
  {
    if q > 0 {
      NextMultiple(q - 1, b);
      DivModUnique(q - 1, b - 1, b);
    }
  }

  lemma NextMultiple(q: nat, b: nat)
    ensures (q + 1) * b == q * b + b
  {}

  // Where a stretch ends: full ones before the last one, which ends with the whole.
  lemma StretchEnd(r: nat, n: nat, size: nat, last: nat)
    requires r < n && 0 < last
    ensures r + 1 < n ==> size * r + size <= size * (n - 1) + last
    ensures r + 1 == n ==> size * r + last == size * (n - 1) + last
  {
    if r + 1 < n {
      BeforeLast(r, n, size);
    } else {
      assert r == n - 1;
    }
  }

  // All of a stretch but the last lies before the last.
  lemma BeforeLast(r: nat, n: nat, size: nat)
    requires r + 1 < n
    ensures size * r + size <= size * (n - 1)
  {
    MulGap(r, n - 1, size);
    Commute(size, r);
    Commute(size, n - 1);
  }

  lemma Commute(a: nat, b: nat)
    ensures a * b == b * a
  {}

  // Items are cut into blocks of b and blocks into runs of k: the last run's extent.
  lemma LastRun(total: nat, b: nat, k: nat)
    requires total > 0 && b > 0 && k > 0
    ensures k * b > 0
    ensures var blocks := DivUp(total, b);
            && total == (DivUp(total, k * b) - 1) * (k * b) + (LastGroup(blocks, k) - 1) * b + LastGroup(total, b)
            && 1 <= LastGroup(blocks, k) <= k && DivUp(total, k * b) > 0
  {
    MulGap(0, k, b);
    Groups(total, b);
    var blocks := DivUp(total, b);
    Groups(blocks, k);
    Groups(total, k * b);
    hide DivUp, LastGroup;
    NestedGroups(DivUp(blocks, k) - 1, LastGroup(blocks, k), LastGroup(total, b), b, k);
    assert blocks - 1 == (DivUp(blocks, k) - 1) * k + (LastGroup(blocks, k) - 1);
  }

  lemma NestedGroups(q: nat, bl: nat, tl: nat, b: nat, k: nat)
    requires 1 <= bl <= k && 1 <= tl <= b
    ensures var last := (q * k + (bl - 1)) * b + tl - 1;
            last == q * (k * b) + ((bl - 1) * b + tl - 1) && k * b > 0 && last / (k * b) == q
  {
    var rest := (bl - 1) * b + tl - 1;
    InsideRun(bl, tl, b, k);
    Distributed(q, k, bl - 1, b);
    DivModUnique(q, rest, k * b);
  }

  lemma InsideRun(bl: nat, tl: nat, b: nat, k: nat)
    requires 1 <= bl <= k && 1 <= tl <= b
    ensures (bl - 1) * b + tl - 1 < k * b
  {
    MulGap(bl - 1, k, b);
  }

  lemma Distributed(q: nat, k: nat, m: nat, b: nat)
    ensures (q * k + m) * b == q * (k * b) + m * b
  {
    assert q * k * b == q * (k * b);
  }
}

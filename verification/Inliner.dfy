// Short strings kept inside an object id: their bytes from the most significant of n bytes on, padded
// with zeros.
module Inliner {
  import opened Arithmetic
  import opened Bytes
  import opened CStrings

  // The n bytes of a number, the most significant one first.
  function BigEndian(v: nat, n: nat): (r: seq<byte>)
    ensures |r| == n
  {
    if n == 0 then [] else BigEndian(v / 256, n - 1) + [v % 256]
  }

  function Number(s: seq<byte>): (v: nat) {
    if s == [] then 0 else 256 * Number(s[..|s| - 1]) + s[|s| - 1]
  }

  function Zeros(n: nat): (r: seq<byte>)
    ensures |r| == n
  {
    seq(n, _ => 0)
  }

  function Padded(s: seq<byte>, n: nat): (r: seq<byte>)
    requires |s| <= n
    ensures |r| == n
  {
    s + Zeros(n - |s|)
  }

  lemma {:induction false} NumberOfDigits(s: seq<byte>)
    ensures Number(s) < Pow256(|s|) && BigEndian(Number(s), |s|) == s
  {
    if s != [] {
      NumberOfDigits(s[..|s| - 1]);
      assert s == s[..|s| - 1] + [s[|s| - 1]];
    }
  }

  // Setting the k-th of n bytes that are all zero from there on.
  lemma {:induction false} NumberOfPadding(s: seq<byte>, n: nat)
    requires |s| < n
    ensures forall b: byte :: Number(Padded(s + [b], n)) == Number(Padded(s, n)) + b * Pow256(n - 1 - |s|)
  {
    forall b: byte ensures Number(Padded(s + [b], n)) == Number(Padded(s, n)) + b * Pow256(n - 1 - |s|) {
      var one, two := Padded(s + [b], n), Padded(s, n);
      if n == |s| + 1 {
        assert one[..n - 1] == s && two[..n - 1] == s;
        assert Pow256(0) == 1;
      } else {
        NumberOfPadding(s, n - 1);
        assert one[..n - 1] == Padded(s + [b], n - 1) && two[..n - 1] == Padded(s, n - 1);
        Scale(b, Pow256(n - 2 - |s|));
      }
    }
  }

  lemma Scale(b: nat, p: nat)
    ensures 256 * (b * p) == b * (256 * p)
  {}

  // The number that holds a string of at most n bytes; a zero byte ends the string.
  method InlineString(s: seq<byte>, n: nat) returns (res: nat)
    requires |s| <= n
    ensures |Text(s)| <= n && res == Number(Padded(Text(s), n)) && res < Pow256(n)
  {
    hide *;
    TextLength(s);
    res := 0;
    var i, shift := 0, n;
    ZeroNumber(n);
    assert s[..0] == [] && s[0..] == s;
    while i < |s| && s[i] != 0
      invariant 0 <= i <= |s| && shift == n - i && Text(s) == s[..i] + Text(s[i..])
      invariant res == Number(Padded(s[..i], n))
    {
      TextStep(s, i);
      NumberOfPadding(s[..i], n);
      assert s[..i] + [s[i]] == s[..i + 1];
      res := res + s[i] * Pow256(shift - 1);
      i, shift := i + 1, shift - 1;
    }
    TextEnds(s[i..]);
    assert Text(s) == s[..i];
    NumberOfDigits(Padded(Text(s), n));
  }

  lemma TextEnds(s: seq<byte>)
    requires s == [] || s[0] == 0
    ensures Text(s) == []
  {}

  lemma TextStep(s: seq<byte>, i: nat)
    requires i < |s| && s[i] != 0
    ensures Text(s[i..]) == [s[i]] + Text(s[i + 1..])
    ensures s[..i] + Text(s[i..]) == s[..i + 1] + Text(s[i + 1..])
  {
    assert s[i..][1..] == s[i + 1..];
    assert s[..i + 1] == s[..i] + [s[i]];
  }

  lemma {:induction false} ZeroNumber(n: nat)
    ensures Number(Padded([], n)) == 0
  {
    if n > 0 {
      ZeroNumber(n - 1);
      assert Padded([], n)[..n - 1] == Padded([], n - 1);
    }
  }

  // The string held by the n least significant bytes of an id.
  method GetStringInlined(id: nat, n: nat) returns (s: seq<byte>)
    ensures s == Text(BigEndian(id, n))
  {
    s := [];
    ghost var digits := BigEndian(id, n);
    var i := 0;
    while i < n
      invariant 0 <= i <= n && s == digits[..i] && Text(digits) == s + Text(digits[i..])
    {
      ByteAt(id, n, i);
      var b := id / Pow256(n - 1 - i) % 256;
      if b == 0 {
        assert Text(digits[i..]) == [];
        return;
      }
      TextStep(digits, i);
      s := s + [b];
      i := i + 1;
    }
    assert digits[n..] == [];
  }

  // The n least significant bytes of a value, the most significant one first, with zeros behind them.
  method Decode(val: nat, n: nat) returns (bytes: seq<byte>)
    requires n <= 7
    ensures bytes == Padded(BigEndian(val, n), 8)
  {
    bytes := [];
    for i := 0 to n
      invariant bytes == BigEndian(val, n)[..i]
    {
      ByteAt(val, n, i);
      bytes := bytes + [val / Pow256(n - 1 - i) % 256];
    }
    bytes := bytes + Zeros(8 - n);
  }

  lemma DecodedText(val: nat, n: nat)
    requires n <= 7
    ensures 0 in Padded(BigEndian(val, n), 8) && Text(Padded(BigEndian(val, n), 8)) == Text(BigEndian(val, n))
  {
    TextOfPadded(BigEndian(val, n), Zeros(8 - n));
    assert Padded(BigEndian(val, n), 8)[7] == 0;
  }

  lemma {:induction false} ByteAt(v: nat, n: nat, i: nat)
    requires i < n
    ensures BigEndian(v, n)[i] == v / Pow256(n - 1 - i) % 256
  {
    if i < n - 1 {
      ByteAt(v / 256, n - 1, i);
      DivDiv(v, Pow256(n - 2 - i));
    }
  }

  // A string without zero bytes comes back from the number that holds it.
  lemma {:induction false} InlineRoundTrip(s: seq<byte>, n: nat)
    requires |s| <= n
    ensures Text(BigEndian(Number(Padded(s, n)), n)) == Text(s)
  {
    NumberOfDigits(Padded(s, n));
    TextOfPadded(s, Zeros(n - |s|));
  }

  lemma {:induction false} TextOfPadded(s: seq<byte>, z: seq<byte>)
    requires forall i :: 0 <= i < |z| ==> z[i] == 0
    ensures Text(s + z) == Text(s)
  {
    if s == [] {
      assert s + z == z;
    } else {
      assert (s + z)[1..] == s[1..] + z;
      TextOfPadded(s[1..], z);
    }
  }

  // The higher bytes of an id do not matter.
  lemma {:induction false} BigEndianLow(v: nat, w: nat, n: nat)
    ensures BigEndian(v + w * Pow256(n), n) == BigEndian(v, n)
  {
    if n > 0 {
      var u := w * Pow256(n - 1);
      assert w * Pow256(n) == 256 * u by {
        Scale(w, Pow256(n - 1));
      }
      assert (v + 256 * u) / 256 == v / 256 + u && (v + 256 * u) % 256 == v % 256;
      BigEndianLow(v / 256, w, n - 1);
    }
  }
}

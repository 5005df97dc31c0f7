// Strings as the character iterators deliver them: they end at their first zero byte.
module CStrings {
  import opened Bytes

  function Text(s: seq<byte>): (r: seq<byte>) {
    if s == [] || s[0] == 0 then [] else [s[0]] + Text(s[1..])
  }

  // The result of comparing two iterators byte by byte: the difference of the first bytes that differ,
  // the end of a string counting as zero.
  function Compare(a: seq<byte>, b: seq<byte>): (r: int)
    decreases |a|
  {
    var c1 := if a == [] then 0 else a[0];
    var c2 := if b == [] then 0 else b[0];
    if c1 == 0 || c1 != c2 then c1 - c2 else Compare(a[1..], b[1..])
  }

  predicate SameText(a: seq<byte>, b: seq<byte>) {
    |a| == |b| && Text(a) == Text(b)
  }

  lemma SameTextMeans(a: seq<byte>, b: seq<byte>)
    ensures SameText(a, b) <==> |a| == |b| && Compare(a, b) == 0
  {
    CompareIsEquality(a, b);
  }

  lemma SameTextRefl(s: seq<byte>)
    ensures SameText(s, s)
  {}

  predicate NulFree(s: seq<byte>) { 0 !in s }

  lemma {:induction false} TextOfNulFree(s: seq<byte>)
    ensures Text(s) == s <==> NulFree(s)
  {
    if s != [] && s[0] != 0 {
      TextOfNulFree(s[1..]);
      assert s == [s[0]] + s[1..];
    }
  }

  lemma {:induction false} TextLength(s: seq<byte>)
    ensures |Text(s)| <= |s| && (|Text(s)| == |s| ==> Text(s) == s)
  {
    if s != [] && s[0] != 0 {
      TextLength(s[1..]);
      assert s == [s[0]] + s[1..];
    }
  }

  lemma {:induction false} CompareIsEquality(a: seq<byte>, b: seq<byte>)
    ensures Compare(a, b) == 0 <==> Text(a) == Text(b)
    decreases |a|
  {
    if a != [] && b != [] && a[0] == b[0] != 0 {
      CompareIsEquality(a[1..], b[1..]);
      assert Text(a)[1..] == Text(a[1..]) && Text(b)[1..] == Text(b[1..]);
    } else if a != [] && a[0] != 0 && b != [] && b[0] != 0 {
      assert Text(a)[0] == a[0] && Text(b)[0] == b[0];
    }
  }

  // The byte at a place, or zero at the end.
  function ByteOrEnd(t: seq<byte>, k: nat): (b: byte)
    requires k <= |t|
  {
    if k < |t| then t[k] else 0
  }

  ghost predicate DifferFirstAt(s: seq<byte>, t: seq<byte>, k: nat) {
    k <= |s| && k <= |t| && s[..k] == t[..k] && ByteOrEnd(s, k) != ByteOrEnd(t, k)
  }

  // Different texts differ for the first time somewhere, and comparing gives the difference of the
  // bytes there.
  lemma {:induction false} CompareIsFirstDifference(a: seq<byte>, b: seq<byte>)
    ensures Text(a) == Text(b) ==> Compare(a, b) == 0
    ensures Text(a) != Text(b) ==>
              exists k: nat :: DifferFirstAt(Text(a), Text(b), k)
                               && Compare(a, b) == ByteOrEnd(Text(a), k) - ByteOrEnd(Text(b), k)
    decreases |a|
  {
    CompareIsEquality(a, b);
    if Text(a) != Text(b) {
      if a != [] && b != [] && a[0] == b[0] != 0 {
        CompareIsFirstDifference(a[1..], b[1..]);
        var s, t := Text(a[1..]), Text(b[1..]);
        var k: nat :| DifferFirstAt(s, t, k) && Compare(a, b) == ByteOrEnd(s, k) - ByteOrEnd(t, k);
        assert ([a[0]] + s)[..k + 1] == [a[0]] + s[..k] && ([b[0]] + t)[..k + 1] == [b[0]] + t[..k];
        assert DifferFirstAt(Text(a), Text(b), k + 1);
      } else {
        assert DifferFirstAt(Text(a), Text(b), 0);
      }
    }
  }

  lemma {:induction false} CompareIsAntisymmetric(a: seq<byte>, b: seq<byte>)
    ensures Compare(a, b) == -Compare(b, a)
    decreases |a|
  {
    if a != [] && b != [] && a[0] == b[0] != 0 {
      CompareIsAntisymmetric(a[1..], b[1..]);
    }
  }

  lemma {:induction false} CompareIsTransitive(a: seq<byte>, b: seq<byte>, c: seq<byte>)
    requires Compare(a, b) <= 0 && Compare(b, c) <= 0
    ensures Compare(a, c) <= 0
    decreases |a|
  {
    if a != [] && b != [] && c != [] && a[0] == b[0] == c[0] != 0 {
      CompareIsTransitive(a[1..], b[1..], c[1..]);
    }
  }
}

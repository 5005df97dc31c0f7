// The UTF-8 reader and writer of the string compressor, against the grammar of RFC 3629.
// Masks and shifts are written as comparisons, divisions and remainders by powers of two.
module Utf8 {
  import opened Bytes

  const REPLACEMENT := 0xFFFD
  const MAX_CODE_POINT := 0x10FFFF

  predicate IsSurrogate(c: int) { 0xD800 <= c <= 0xDFFF }

  predicate IsScalar(c: int) { 0 <= c <= MAX_CODE_POINT && !IsSurrogate(c) }

  predicate IsTail(b: byte) { 0x80 <= b <= 0xBF }

  // The production UTF8-char of section 4 of RFC 3629.
  predicate IsUtf8Char(s: seq<byte>) {
    || (|s| == 1 && s[0] <= 0x7F)
    || (|s| == 2 && 0xC2 <= s[0] <= 0xDF && IsTail(s[1]))
    || (|s| == 3 && IsTail(s[2]) &&
        (|| (s[0] == 0xE0 && 0xA0 <= s[1] <= 0xBF)
         || (0xE1 <= s[0] <= 0xEC && IsTail(s[1]))
         || (s[0] == 0xED && 0x80 <= s[1] <= 0x9F)
         || (0xEE <= s[0] <= 0xEF && IsTail(s[1]))))
    || (|s| == 4 && IsTail(s[2]) && IsTail(s[3]) &&
        (|| (s[0] == 0xF0 && 0x90 <= s[1] <= 0xBF)
         || (0xF1 <= s[0] <= 0xF3 && IsTail(s[1]))
         || (s[0] == 0xF4 && 0x80 <= s[1] <= 0x8F)))
  }

  // The production UTF8-octets of section 4 of RFC 3629.
  ghost predicate WellFormed(s: seq<byte>)
    decreases |s|
  {
    s == [] || exists k :: 1 <= k <= |s| && IsUtf8Char(s[..k]) && WellFormed(s[k..])
  }

  /* ----- writer: write_utf8 ----- */

  function WriteUtf8(c: nat): (r: seq<byte>)
    ensures 1 <= |r| <= 4 && IsUtf8Char(r)
  {
    if c <= 0x7F then [c]
    else if c <= 0x7FF then [0xC0 + c / 64, 0x80 + c % 64]
    else if c <= 0xFFFF && !IsSurrogate(c) then [0xE0 + c / 4096, 0x80 + c / 64 % 64, 0x80 + c % 64]
    else if 0xFFFF < c <= MAX_CODE_POINT then
      [0xF0 + c / 262144, 0x80 + c / 4096 % 64, 0x80 + c / 64 % 64, 0x80 + c % 64]
    else [0xEF, 0xBF, 0xBD]  // U+FFFD
  }

  method PutUtf8(c: nat, out: array<byte>, pos: nat) returns (end: nat)
    requires pos + |WriteUtf8(c)| <= out.Length
    modifies out
    ensures end == pos + |WriteUtf8(c)|
    ensures out[..end] == old(out[..pos]) + WriteUtf8(c)
    decreases if IsScalar(c) then 0 else 1
  {
    if c <= 0x7F {
      out[pos] := c;
      end := pos + 1;
    } else if c <= 0x7FF {
      out[pos], out[pos + 1] := 0xC0 + c / 64, 0x80 + c % 64;
      end := pos + 2;
    } else if c <= 0xFFFF {
      if 0xD800 <= c <= 0xDFFF {
        end := PutUtf8(REPLACEMENT, out, pos);
        return;
      }
      out[pos], out[pos + 1], out[pos + 2] := 0xE0 + c / 4096, 0x80 + c / 64 % 64, 0x80 + c % 64;
      end := pos + 3;
    } else if c <= MAX_CODE_POINT {
      out[pos], out[pos + 1], out[pos + 2], out[pos + 3] :=
        0xF0 + c / 262144, 0x80 + c / 4096 % 64, 0x80 + c / 64 % 64, 0x80 + c % 64;
      end := pos + 4;
    } else {
      end := PutUtf8(REPLACEMENT, out, pos);
    }
  }

  /* ----- reader: code_point_from_utf8 ----- */

  // The payload of a lead byte whose low bits count n values, and of a continuation byte.
  function Lead(b: byte, n: int): (r: nat)
    requires 0 < n
  {
    b as int % n
  }

  function Six(b: byte): (r: nat) { b as int % 64 }

  // The code point read at the front of s and the number of bytes it takes.
  // Overlong forms and values above U+10FFFF are not rejected, encoded surrogates are replaced.
  function Read(s: seq<byte>): (r: (nat, nat))
    requires s != []
    ensures 1 <= r.1 <= |s| && r.1 <= 4
  {
    if s[0] < 0x80 then (s[0], 1)
    else if 0xC0 <= s[0] < 0xE0 then
      if |s| < 2 then (REPLACEMENT, |s|)
      else if !IsTail(s[1]) then (REPLACEMENT, 1)
      else (Lead(s[0], 32) * 64 + Six(s[1]), 2)
    else if 0xE0 <= s[0] < 0xF0 then
      if |s| < 3 then (REPLACEMENT, |s|)
      else if !IsTail(s[1]) || !IsTail(s[2]) then (REPLACEMENT, 1)
      else
        var c := (Lead(s[0], 16) * 64 + Six(s[1])) * 64 + Six(s[2]);
        (if IsSurrogate(c) then REPLACEMENT else c, 3)
    else if 0xF0 <= s[0] < 0xF8 then
      if |s| < 4 then (REPLACEMENT, |s|)
      else if !IsTail(s[1]) || !IsTail(s[2]) || !IsTail(s[3]) then (REPLACEMENT, 1)
      else (((Lead(s[0], 8) * 64 + Six(s[1])) * 64 + Six(s[2])) * 64 + Six(s[3]), 4)
    else (REPLACEMENT, 1)
  }

  // At the end of the input the source returns (uint32_t) -1 and leaves the pointer alone.
  method CodePointFromUtf8(inp: array<byte>, begin: nat, end: nat) returns (c: nat, next: nat)
    requires end <= inp.Length
    ensures begin >= end ==> c == 0xFFFF_FFFF && next == begin
    ensures begin < end ==> (c, next - begin) == Read(inp[begin..end]) && begin < next <= end
  {
    if begin >= end {
      return 0xFFFF_FFFF, begin;
    }
    var b := inp[begin];
    if b < 0x80 {
      return b, begin + 1;
    } else if 0xC0 <= b < 0xE0 {
      if begin + 1 >= end {
        return REPLACEMENT, end;
      }
      if !IsTail(inp[begin + 1]) {
        return REPLACEMENT, begin + 1;
      }
      return Lead(b, 32) * 64 + Six(inp[begin + 1]), begin + 2;
    } else if 0xE0 <= b < 0xF0 {
      if begin + 2 >= end {
        return REPLACEMENT, end;
      }
      if !IsTail(inp[begin + 1]) || !IsTail(inp[begin + 2]) {
        return REPLACEMENT, begin + 1;
      }
      c := (Lead(b, 16) * 64 + Six(inp[begin + 1])) * 64 + Six(inp[begin + 2]);
      next := begin + 3;
      if IsSurrogate(c) {
        c := REPLACEMENT;
      }
    } else if 0xF0 <= b < 0xF8 {
      if begin + 3 >= end {
        return REPLACEMENT, end;
      }
      if !IsTail(inp[begin + 1]) || !IsTail(inp[begin + 2]) || !IsTail(inp[begin + 3]) {
        return REPLACEMENT, begin + 1;
      }
      c := ((Lead(b, 8) * 64 + Six(inp[begin + 1])) * 64 + Six(inp[begin + 2])) * 64 + Six(inp[begin + 3]);
      next := begin + 4;
    } else {
      return REPLACEMENT, begin + 1;
    }
  }

  /* ----- properties ----- */

  lemma Digits(c: nat)
    ensures c == c / 64 * 64 + c % 64 && c % 64 < 64
    ensures c / 4096 == c / 64 / 64 && c / 262144 == c / 64 / 64 / 64
  {}

  lemma Payloads(x: nat)
    ensures x < 64 ==> Six(0x80 + x) == x
    ensures x < 32 ==> Lead(0xC0 + x, 32) == x
    ensures x < 16 ==> Lead(0xE0 + x, 16) == x
    ensures x < 8 ==> Lead(0xF0 + x, 8) == x
  {}

  lemma LeadOf(b: byte)
    ensures IsTail(b) ==> b == 0x80 + Six(b)
    ensures 0xC0 <= b < 0xE0 ==> b == 0xC0 + Lead(b, 32)
    ensures 0xE0 <= b < 0xF0 ==> b == 0xE0 + Lead(b, 16)
    ensures 0xF0 <= b < 0xF8 ==> b == 0xF0 + Lead(b, 8)
  {}

  // A number below 64 * n splits uniquely into a digit and a rest.
  lemma Split(q: nat, r: nat)
    requires r < 64
    ensures (q * 64 + r) / 64 == q && (q * 64 + r) % 64 == r
  {}

  // Reading what was written gives the scalar value back, whatever follows it.
  lemma ReadWrite(c: nat, rest: seq<byte>)
    requires IsScalar(c)
    ensures Read(WriteUtf8(c) + rest) == (c, |WriteUtf8(c)|)
  {
    var w := WriteUtf8(c);
    var q := c / 64;
    assert forall i :: 0 <= i < |w| ==> (w + rest)[i] == w[i];
    if c <= 0x7F {
    } else if c <= 0x7FF {
      ReadWrite2(c, w + rest);
    } else if c <= 0xFFFF {
      ReadWrite3(c, w + rest);
    } else {
      ReadWrite4(c, w + rest);
    }
  }

  lemma ReadWrite2(c: nat, s: seq<byte>)
    requires 0x7F < c <= 0x7FF && |s| >= 2 && s[0] == 0xC0 + c / 64 && s[1] == 0x80 + c % 64
    ensures Read(s) == (c, 2)
  {
    Payloads(c / 64); Payloads(c % 64); Digits(c);
  }

  lemma ReadWrite3(c: nat, s: seq<byte>)
    requires 0x7FF < c <= 0xFFFF && !IsSurrogate(c) && |s| >= 3
    requires s[0] == 0xE0 + c / 4096 && s[1] == 0x80 + c / 64 % 64 && s[2] == 0x80 + c % 64
    ensures Read(s) == (c, 3)
  {
    Digits(c); Digits(c / 64);
    Payloads(c / 4096); Payloads(c / 64 % 64); Payloads(c % 64);
  }

  lemma ReadWrite4(c: nat, s: seq<byte>)
    requires 0xFFFF < c <= MAX_CODE_POINT && |s| >= 4
    requires s[0] == 0xF0 + c / 262144 && s[1] == 0x80 + c / 4096 % 64
    requires s[2] == 0x80 + c / 64 % 64 && s[3] == 0x80 + c % 64
    ensures Read(s) == (c, 4)
  {
    Digits(c); Digits(c / 64); Digits(c / 64 / 64);
    Payloads(c / 262144); Payloads(c / 4096 % 64); Payloads(c / 64 % 64); Payloads(c % 64);
  }

  // On a grammatical character the reader finds exactly that character, and the writer restores it.
  lemma WriteRead(s: seq<byte>, k: nat)
    requires k <= |s| && IsUtf8Char(s[..k])
    ensures Read(s).1 == k && IsScalar(Read(s).0) && WriteUtf8(Read(s).0) == s[..k]
  {
    assert forall i :: 0 <= i < k ==> s[..k][i] == s[i];
    if k == 2 {
      WriteRead2(s);
    } else if k == 3 {
      WriteRead3(s);
    } else if k == 4 {
      WriteRead4(s);
    }
  }

  lemma WriteRead2(s: seq<byte>)
    requires |s| >= 2 && 0xC2 <= s[0] <= 0xDF && IsTail(s[1])
    ensures Read(s).1 == 2 && IsScalar(Read(s).0) && WriteUtf8(Read(s).0) == s[..2]
  {
    LeadOf(s[0]); LeadOf(s[1]);
    Split(Lead(s[0], 32), Six(s[1]));
  }

  lemma WriteRead3(s: seq<byte>)
    requires |s| >= 3 && 0xE0 <= s[0] <= 0xEF && IsTail(s[1]) && IsTail(s[2])
    requires s[0] == 0xE0 ==> 0xA0 <= s[1]
    requires s[0] == 0xED ==> s[1] <= 0x9F
    ensures Read(s).1 == 3 && IsScalar(Read(s).0) && WriteUtf8(Read(s).0) == s[..3]
  {
    LeadOf(s[0]); LeadOf(s[1]); LeadOf(s[2]);
    var a, b, c := Lead(s[0], 16), Six(s[1]), Six(s[2]);
    Split(a, b);
    Split(a * 64 + b, c);
    Digits((a * 64 + b) * 64 + c);
  }

  lemma WriteRead4(s: seq<byte>)
    requires |s| >= 4 && 0xF0 <= s[0] <= 0xF4 && IsTail(s[1]) && IsTail(s[2]) && IsTail(s[3])
    requires s[0] == 0xF0 ==> 0x90 <= s[1]
    requires s[0] == 0xF4 ==> s[1] <= 0x8F
    ensures Read(s).1 == 4 && IsScalar(Read(s).0) && WriteUtf8(Read(s).0) == s[..4]
  {
    LeadOf(s[0]); LeadOf(s[1]); LeadOf(s[2]); LeadOf(s[3]);
    var a, b, c, d := Lead(s[0], 8), Six(s[1]), Six(s[2]), Six(s[3]);
    hide Lead, Six;
    Split(a, b);
    Split(a * 64 + b, c);
    Split((a * 64 + b) * 64 + c, d);
    Digits(((a * 64 + b) * 64 + c) * 64 + d);
  }

  // The code points the compressor's loop reads from s.
  function CodePoints(s: seq<byte>): (r: seq<nat>)
    decreases |s|
  {
    if s == [] then [] else var (c, n) := Read(s); [c] + CodePoints(s[n..])
  }

  // UTF-8 of a sequence of code points.
  function Write(cs: seq<nat>): (r: seq<byte>) {
    if cs == [] then [] else WriteUtf8(cs[0]) + Write(cs[1..])
  }

  lemma {:induction false} WriteConcat(a: seq<nat>, b: seq<nat>)
    ensures Write(a + b) == Write(a) + Write(b)
  {
    if a == [] {
      assert a + b == b;
    } else {
      assert (a + b)[1..] == a[1..] + b;
      WriteConcat(a[1..], b);
    }
  }

  lemma {:induction false} WrittenIsWellFormed(cs: seq<nat>)
    ensures WellFormed(Write(cs))
  {
    if cs != [] {
      WrittenIsWellFormed(cs[1..]);
      var w, r := WriteUtf8(cs[0]), Write(cs[1..]);
      assert (w + r)[..|w|] == w && (w + r)[|w|..] == r;
    }
  }

  lemma {:induction false} WellFormedRewrites(s: seq<byte>)
    requires WellFormed(s)
    ensures Write(CodePoints(s)) == s
    ensures forall c :: c in CodePoints(s) ==> IsScalar(c)
    decreases |s|
  {
    hide IsUtf8Char, WriteUtf8, Read;
    if s != [] {
      var k :| 1 <= k <= |s| && IsUtf8Char(s[..k]) && WellFormed(s[k..]);
      WriteRead(s, k);
      WellFormedRewrites(s[k..]);
      assert s == s[..k] + s[k..];
    }
  }

  // Reading and rewriting is the identity on exactly the well-formed strings.
  lemma RewriteIdentity(s: seq<byte>)
    ensures Write(CodePoints(s)) == s <==> WellFormed(s)
  {
    WrittenIsWellFormed(CodePoints(s));
    if WellFormed(s) {
      WellFormedRewrites(s);
    }
  }
}

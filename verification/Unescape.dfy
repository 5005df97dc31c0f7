// String literals of the importer: the escapes of a quoted literal are resolved in place.
module Unescape {
  import opened Bytes
  import opened StringLength
  import opened Utf8

  const QUOTE: byte := 0x22
  const BACKSLASH: byte := 0x5C
  const SLASH: byte := 0x2F
  const BACKSPACE: byte := 8
  const TAB: byte := 9
  const NEWLINE: byte := 10
  const FORM_FEED: byte := 12
  const RETURN: byte := 13
  const SMALL_N: byte := 0x6E
  const SMALL_R: byte := 0x72
  const SMALL_T: byte := 0x74
  const SMALL_U: byte := 0x75
  const BIG_U: byte := 0x55
  const SMALL_B: byte := 0x62
  const SMALL_F: byte := 0x66

  /* ----- code points given by hexadecimal digits ----- */

  predicate IsHex(b: byte) { 0x61 <= b <= 0x66 || 0x41 <= b <= 0x46 || 0x30 <= b <= 0x39 }

  function Digit(b: byte): (r: nat)
    requires IsHex(b)
    ensures r < 16
  {
    if b >= 0x61 then b - 0x61 + 10 else if b >= 0x41 then b - 0x41 + 10 else b - 0x30
  }

  function HexValue(s: seq<byte>): (r: nat)
    requires forall i :: 0 <= i < |s| ==> IsHex(s[i])
  {
    if s == [] then 0 else 16 * HexValue(s[..|s| - 1]) + Digit(s[|s| - 1])
  }

  // The code point given by the first n bytes of s, if they are all digits.
  function CodepointAt(s: seq<byte>, n: nat): (r: Option<nat>) {
    if n <= |s| && forall i :: 0 <= i < n ==> IsHex(s[i]) then Some(HexValue(s[..n])) else None
  }

  // Surrogates are written as three bytes like any other code point of their size.
  function EncodeCodepoint(code: nat): (r: seq<byte>)
    ensures 1 <= |r| <= 4 && (code < 0x10000 ==> |r| <= 3)
  {
    if IsSurrogate(code) then [0xE0 + code / 4096, 0x80 + code / 64 % 64, 0x80 + code % 64] else WriteUtf8(code)
  }

  // The reader of the string compressor finds the code point again exactly if it is a scalar value.
  lemma EscapedCodepointReadsBack(code: nat, rest: seq<byte>)
    ensures Read(EncodeCodepoint(code) + rest) == (code, |EncodeCodepoint(code)|) <==> IsScalar(code)
  {
    if IsScalar(code) {
      ReadWrite(code, rest);
    } else if IsSurrogate(code) {
      SurrogateIsReplaced(code, EncodeCodepoint(code) + rest);
    } else {
      ReadWrite(REPLACEMENT, rest);
    }
  }

  lemma SurrogateIsReplaced(code: nat, s: seq<byte>)
    requires IsSurrogate(code) && |s| >= 3
    requires s[0] == 0xE0 + code / 4096 && s[1] == 0x80 + code / 64 % 64 && s[2] == 0x80 + code % 64
    ensures Read(s) == (REPLACEMENT, 3)
  {
    Digits(code);
    Digits(code / 64);
    Payloads(code / 4096);
    Payloads(code / 64 % 64);
    Payloads(code % 64);
  }

  // The bytes of a code point, six bits at a time from the last byte to the first; the marks that end
  // up in the first byte tell how many bytes there are.
  function Sextets(c: nat, size: nat): (r: seq<nat>)
    requires 1 <= size <= 4
    ensures |r| == size
    decreases size
  {
    if size == 1 then [c] else Sextets(c / 64 + Mark(size), size - 1) + [0x80 + c % 64]
  }

  function Mark(size: nat): (r: nat)
    requires 2 <= size <= 4
  {
    if size == 4 then 0x10000 else if size == 3 then 0x800 else 0xC0
  }

  lemma SextetsEncode(code: nat, size: nat)
    requires code < 0x110000
    requires size == if code < 0x80 then 1 else if code < 0x800 then 2 else if code < 0x10000 then 3 else 4
    ensures Sextets(code, size) == EncodeCodepoint(code)
  {
    CodepointBytes(code);
    hide EncodeCodepoint, Sextets;
    LastSextet(code, 1);
    Sextets2(code);
    Sextets3(code);
    Sextets3(code / 64 + 0x10000);
    if size == 4 {
      LastSextet(code, 4);
      assert Sextets(code, 4) == Sextets(code / 64 + 0x10000, 3) + [0x80 + code % 64];
    }
  }

  lemma Sextets2(c: nat)
    ensures Sextets(c, 2) == [c / 64 + 0xC0, 0x80 + c % 64]
  {
    assert Sextets(c / 64 + 0xC0, 1) == [c / 64 + 0xC0];
  }

  lemma Sextets3(c: nat)
    ensures Sextets(c, 3) == [(c / 64 + 0x800) / 64 + 0xC0, 0x80 + (c / 64 + 0x800) % 64, 0x80 + c % 64]
  {
    Sextets2(c / 64 + 0x800);
  }

  method WriteCodepoint(str: array<byte>, at: nat, code: nat) returns (size: nat)
    requires code < 0x1_0000_0000 && at + |EncodeCodepoint(code)| <= str.Length
    modifies str
    ensures size == |EncodeCodepoint(code)| && str[..] == Overwrite(old(str[..]), at, EncodeCodepoint(code))
  {
    hide EncodeCodepoint;
    CodepointBytes(code);
    if code >= 0x110000 {
      str[at], str[at + 1], str[at + 2] := 0xEF, 0xBF, 0xBD;
      return 3;
    }
    size := if code < 0x80 then 1 else if code < 0x800 then 2 else if code < 0x10000 then 3 else 4;
    SextetsEncode(code, size);
    WriteSextets(str, at, code, size, EncodeCodepoint(code));
  }

  // The sizes fall through from the larger to the smaller.
  method WriteSextets(str: array<byte>, at: nat, code: nat, size: nat, ghost w: seq<byte>)
    requires 1 <= size <= 4 && at + size <= str.Length && w == Sextets(code, size)
    modifies str
    ensures str[..] == Overwrite(old(str[..]), at, w)
  {
    hide Overwrite, Sextets;
    ghost var was := str[..];
    var c: nat, k: nat := code, size;
    while k > 1
      invariant 1 <= k <= size && w[..k] == Sextets(c, k)
      invariant forall j :: 0 <= j < str.Length ==> str[j] == if at + k <= j < at + size then w[j - at] else was[j]
    {
      LastSextet(c, k);
      assert w[k - 1] == w[..k][k - 1] && w[..k - 1] == w[..k][..k - 1];
      str[at + k - 1] := 0x80 + c % 64;
      c := c / 64 + Mark(k);
      k := k - 1;
    }
    LastSextet(c, 1);
    assert w[0] == w[..1][0] == c;
    str[at] := c;
    OverwrittenBytes(was, str[..], at, w);
  }

  lemma OverwrittenBytes(was: seq<byte>, now: seq<byte>, at: nat, w: seq<byte>)
    requires |was| == |now| && at + |w| <= |was|
    requires forall j :: 0 <= j < |now| ==> now[j] == if at <= j < at + |w| then w[j - at] else was[j]
    ensures now == Overwrite(was, at, w)
  {}

  lemma LastSextet(c: nat, k: nat)
    requires 1 <= k <= 4
    ensures if k == 1 then Sextets(c, k) == [c]
            else Sextets(c, k)[k - 1] == 0x80 + c % 64 && Sextets(c, k)[..k - 1] == Sextets(c / 64 + Mark(k), k - 1)
  {}

  // Marking the bits that say how many bytes follow does not disturb the digits.
  lemma CodepointBytes(code: nat)
    ensures code < 0x80 ==> EncodeCodepoint(code) == [code]
    ensures 0x80 <= code < 0x800 ==> EncodeCodepoint(code) == [code / 64 + 0xC0, 0x80 + code % 64]
    ensures 0x800 <= code < 0x10000 ==>
              EncodeCodepoint(code) == [(code / 64 + 0x800) / 64 + 0xC0, 0x80 + (code / 64 + 0x800) % 64,
                  0x80 + code % 64]
              && (code / 64 + 0x800) / 64 + 0xC0 < 256
    ensures 0x10000 <= code < 0x110000 ==>
              EncodeCodepoint(code) == [((code / 64 + 0x10000) / 64 + 0x800) / 64 + 0xC0,
                                        0x80 + ((code / 64 + 0x10000) / 64 + 0x800) % 64,
                                        0x80 + (code / 64 + 0x10000) % 64, 0x80 + code % 64]
              && ((code / 64 + 0x10000) / 64 + 0x800) / 64 + 0xC0 < 256
    ensures code >= 0x110000 ==> EncodeCodepoint(code) == [0xEF, 0xBF, 0xBD]
  {
    Digits(code);
    Marked(code / 64, 0x20);
    Marked(code / 64, 0x400);
    Marked(code / 64 / 64, 0x30);
    assert (code / 64 + 0x10000) / 64 + 0x800 == code / 64 / 64 + 0x30 * 64;
  }

  lemma Marked(q: nat, mark: nat)
    ensures (q + mark * 64) / 64 == q / 64 + mark && (q + mark * 64) % 64 == q % 64
  {}

  lemma {:induction false} HexBound(s: seq<byte>)
    requires forall i :: 0 <= i < |s| ==> IsHex(s[i])
    ensures HexValue(s) < Pow16(|s|)
  {
    if s != [] {
      HexBound(s[..|s| - 1]);
    }
  }

  function Pow16(n: nat): (r: nat) { if n == 0 then 1 else 16 * Pow16(n - 1) }

  lemma CodepointBound(s: seq<byte>, n: nat)
    ensures n == 4 && CodepointAt(s, n).Some? ==> CodepointAt(s, n).value < 0x10000
    ensures n == 8 && CodepointAt(s, n).Some? ==> CodepointAt(s, n).value < 0x1_0000_0000
  {
    if (n == 4 || n == 8) && CodepointAt(s, n).Some? {
      HexBound(s[..n]);
      assert Pow16(8) == 16 * Pow16(7) && Pow16(7) == 16 * Pow16(6) && Pow16(6) == 16 * Pow16(5)
             && Pow16(5) == 16 * Pow16(4) && Pow16(4) == 16 * Pow16(3) && Pow16(3) == 16 * Pow16(2);
    }
  }

  /* ----- what a literal stands for ----- */

  // What a backslash and one more character stand for.
  function SimpleEscape(b: byte): (r: Option<byte>) {
    if b == QUOTE || b == BACKSLASH || b == SLASH then Some(b)
    else if b == SMALL_N then Some(NEWLINE)
    else if b == SMALL_T then Some(TAB)
    else if b == SMALL_R then Some(RETURN)
    else None
  }

  // The first token of a literal: how many bytes it has and what it stands for. A backslash at the
  // end is read together with the closing quote.
  function Token(s: seq<byte>): (r: (nat, seq<byte>))
    requires s != []
    ensures 0 < r.0 <= |s| && 0 < |r.1| <= r.0
  {
    if s[0] != BACKSLASH then (1, [s[0]])
    else if |s| == 1 then (1, [QUOTE])
    else if SimpleEscape(s[1]).Some? then (2, [SimpleEscape(s[1]).value])
    else if s[1] == SMALL_U && CodepointAt(s[2..], 4).Some? then (6, EncodeCodepoint(CodepointAt(s[2..], 4).value))
    else if s[1] == BIG_U && CodepointAt(s[2..], 8).Some? then (10, EncodeCodepoint(CodepointAt(s[2..], 8).value))
    else (2, [BACKSLASH, s[1]])
  }

  function TextOf(s: seq<byte>): (r: seq<byte>)
    ensures |r| <= |s|
    decreases |s|
  {
    if s == [] then [] else Token(s).1 + TextOf(s[Token(s).0..])
  }

  // The literal ends with a backslash that does not belong to a token before it.
  predicate Dangling(s: seq<byte>)
    decreases |s|
  {
    s != [] && (s == [BACKSLASH] || Dangling(s[Token(s).0..]))
  }

  /* ----- the in-place conversion ----- */

  // Tries to resolve the digits after position readPtr, where the u is.
  method ReadCodepoint(str: array<byte>, readPtr: nat, writePtr: nat, end: nat, unicodeLength: nat) returns (size: nat)
    requires writePtr + 2 <= readPtr < end < str.Length && (unicodeLength == 4 || unicodeLength == 8)
    modifies str
    ensures match CodepointAt(old(str[readPtr + 1..end]), unicodeLength)
            case None => size == 0 && str[..] == old(str[..])
            case Some(code) =>
              && size == |EncodeCodepoint(code)| && writePtr + size <= readPtr + 2
              && str[..] == Overwrite(old(str[..]), writePtr, EncodeCodepoint(code))
  {
    ghost var s := str[readPtr + 1..end];
    if readPtr + 1 + unicodeLength > end {
      return 0;
    }
    var buffer: seq<byte> := [];
    for i := 0 to unicodeLength
      invariant buffer == s[..i] && forall j :: 0 <= j < i ==> IsHex(s[j])
    {
      if !IsHex(str[readPtr + 1 + i]) {
        return 0;
      }
      buffer := buffer + [str[readPtr + 1 + i]];
    }
    CodepointBound(s, unicodeLength);
    size := WriteCodepoint(str, writePtr, HexValue(buffer));
  }

  // The escape for a code point, the letter u being at readPtr; the caller still steps over one more byte.
  method HandleEscapeU(str: array<byte>, readPtr: nat, writePtr: nat, end: nat, strLen: int, unicodeLength: nat,
      letter: byte)
    returns (readAfter: nat, writeAfter: nat, lenAfter: int)
    requires writePtr + 2 <= readPtr < end < str.Length && (unicodeLength == 4 || unicodeLength == 8)
    modifies str
    ensures match CodepointAt(old(str[readPtr + 1..end]), unicodeLength)
            case None =>
              && readAfter == readPtr && writeAfter == writePtr + 1 && lenAfter == strLen + 1
              && str[..] == Overwrite(old(str[..]), writePtr, [BACKSLASH, letter])
            case Some(code) =>
              && readAfter == readPtr + unicodeLength && writeAfter + 1 == writePtr + |EncodeCodepoint(code)|
              && lenAfter == strLen + |EncodeCodepoint(code)| - (unicodeLength + 1)
              && writePtr + |EncodeCodepoint(code)| <= str.Length
              && str[..] == Overwrite(old(str[..]), writePtr, EncodeCodepoint(code))
  {
    hide EncodeCodepoint, CodepointAt;
    var size := ReadCodepoint(str, readPtr, writePtr, end, unicodeLength);
    if size != 0 {
      return readPtr + (unicodeLength + 1) - 1, writePtr + size - 1, strLen + size - (unicodeLength + 1);
    } else {
      str[writePtr], str[writePtr + 1] := BACKSLASH, letter;
      return readPtr, writePtr + 1, strLen + 1;
    }
  }

  // How far the reader goes for a token: at the end it takes the closing quote as well.
  function Consumed(s: seq<byte>): (n: nat)
    requires s != []
  {
    if s == [BACKSLASH] then 2 else Token(s).0
  }

  // One escape, the backslash being at readPtr and the unread rest of the literal at readPtr..end.
  method ResolveEscape(str: array<byte>, readPtr: nat, writePtr: nat, end: nat, strLen: int)
    returns (readAfter: nat, writeAfter: nat, lenAfter: int)
    requires writePtr < readPtr < end < str.Length && str[readPtr] == BACKSLASH && str[end] == QUOTE
    modifies str
    ensures var s := old(str[readPtr..end]);
            && readAfter == readPtr + Consumed(s) && writeAfter == writePtr + |Token(s).1|
            && lenAfter == strLen - Consumed(s) + |Token(s).1|
            && writeAfter <= str.Length && str[..] == Overwrite(old(str[..]), writePtr, Token(s).1)
  {
    hide *;
    ghost var s := str[readPtr..end];
    var b := str[readPtr + 1];
    assert readPtr + 1 < end ==> b == s[1] && str[readPtr + 2..end] == s[2..];
    EscapeToken(s);
    readAfter, writeAfter, lenAfter := readPtr + 1, writePtr, strLen - 1;
    if b == SMALL_U {
      readAfter, writeAfter, lenAfter := HandleEscapeU(str, readAfter, writePtr, end, lenAfter, 4, SMALL_U);
    } else if b == BIG_U {
      readAfter, writeAfter, lenAfter := HandleEscapeU(str, readAfter, writePtr, end, lenAfter, 8, BIG_U);
    } else {
      writeAfter, lenAfter := HandleOther(str, readAfter, writePtr, lenAfter);
    }
    readAfter, writeAfter := readAfter + 1, writeAfter + 1;
  }

  lemma EscapeToken(s: seq<byte>)
    requires s != [] && s[0] == BACKSLASH
    ensures SimpleEscape(QUOTE) == Some(QUOTE) && QUOTE != SMALL_U && QUOTE != BIG_U
    ensures |s| == 1 ==> Consumed(s) == 2 && Token(s).1 == [QUOTE]
    ensures |s| > 1 && s[1] == SMALL_U ==>
              (Consumed(s), Token(s).1) == (match CodepointAt(s[2..], 4)
                                            case None => (2, [BACKSLASH, s[1]])
                                            case Some(code) => (6, EncodeCodepoint(code)))
    ensures |s| > 1 && s[1] == BIG_U ==>
              (Consumed(s), Token(s).1) == (match CodepointAt(s[2..], 8)
                                            case None => (2, [BACKSLASH, s[1]])
                                            case Some(code) => (10, EncodeCodepoint(code)))
    ensures |s| > 1 && s[1] != SMALL_U && s[1] != BIG_U ==>
              (Consumed(s), Token(s).1) == (match SimpleEscape(s[1])
                                            case None => (2, [BACKSLASH, s[1]])
                                            case Some(c) => (2, [c]))
  {}

  // An escape of one character, which is at readPtr; one that is not known stays as it is.
  method HandleOther(str: array<byte>, readPtr: nat, writePtr: nat, strLen: int) returns (writeAfter: nat,
      lenAfter: int)
    requires writePtr + 2 <= readPtr < str.Length
    modifies str
    ensures var w := if SimpleEscape(old(str[readPtr])).Some? then [SimpleEscape(old(str[readPtr])).value]
                     else [BACKSLASH, old(str[readPtr])];
            && writeAfter + 1 == writePtr + |w| && lenAfter + 1 == strLen + |w|
            && str[..] == Overwrite(old(str[..]), writePtr, w)
  {
    hide SimpleEscape;
    writeAfter, lenAfter := writePtr, strLen;
    if SimpleEscape(str[readPtr]).Some? {
      str[writePtr] := SimpleEscape(str[readPtr]).value;
    } else {
      str[writePtr] := BACKSLASH;
      writeAfter := writeAfter + 1;
      str[writeAfter] := str[readPtr];
      lenAfter := lenAfter + 1;
    }
  }

  // One byte that stands for itself, or one escape.
  method NextToken(str: array<byte>, readPtr: nat, writePtr: nat, end: nat, strLen: int)
    returns (readAfter: nat, writeAfter: nat, lenAfter: int)
    requires writePtr < readPtr < end < str.Length && str[end] == QUOTE
    modifies str
    ensures var s := old(str[readPtr..end]);
            && readAfter == readPtr + Consumed(s) && writeAfter == writePtr + |Token(s).1|
            && lenAfter == strLen - Consumed(s) + |Token(s).1|
            && writeAfter <= str.Length && str[..] == Overwrite(old(str[..]), writePtr, Token(s).1)
  {
    hide *;
    if str[readPtr] == BACKSLASH {
      readAfter, writeAfter, lenAfter := ResolveEscape(str, readPtr, writePtr, end, strLen);
    } else {
      ghost var was, s := str[..], str[readPtr..end];
      PlainToken(s);
      str[writePtr] := str[readPtr];
      OverwrittenBytes(was, str[..], writePtr, [s[0]]);
      readAfter, writeAfter, lenAfter := readPtr + 1, writePtr + 1, strLen;
    }
  }

  lemma PlainToken(s: seq<byte>)
    requires s != [] && s[0] != BACKSLASH
    ensures Token(s) == (1, [s[0]]) && Consumed(s) == 1
  {}

  // Turns a quoted literal of strLen bytes into the text it stands for, in the same place. The length
  // that is left is the length of the text, but it would be one too small for a backslash at the end.
  method NormalizeStringLiteral(str: array<byte>, strLen: nat) returns (newLen: int)
    requires 2 <= strLen <= str.Length && str[strLen - 1] == QUOTE
    modifies str
    ensures var body := old(str[1..strLen - 1]);
            var text := TextOf(body);
            && newLen == |text| - (if Dangling(body) then 1 else 0)
            && str[..|text|] == text && str[|text|] == 0
            && str[strLen..] == old(str[strLen..])
  {
    hide *;
    ghost var body, was := str[1..strLen - 1], str[..];
    RestOfLiteral(was, 1, strLen - 1);
    var writePtr, readPtr := 0, 1;
    newLen := strLen - 2;
    var end := newLen + 1;
    while readPtr < end
      invariant 1 <= readPtr <= end + 1 && 0 <= writePtr < readPtr && newLen == writePtr + end - readPtr
      invariant forall j :: readPtr <= j < str.Length ==> str[j] == was[j]
      invariant str[..writePtr] + RestText(was, readPtr, end) == TextOf(body)
      invariant Dangling(body) <==> RestDangling(was, readPtr, end)
    {
      ghost var before, s, w0 := str[..], str[readPtr..end], writePtr;
      assert s == was[readPtr..end];
      TokenStep(was, readPtr, end);
      readPtr, writePtr, newLen := NextToken(str, readPtr, writePtr, end, newLen);
      OverwriteParts(before, w0, Token(s).1);
      assert str[..writePtr] == before[..w0] + Token(s).1;
      Regroup(before[..w0], Token(s).1, RestText(was, readPtr, end));
    }
    RestOfLiteral(was, readPtr, end);
    str[writePtr] := 0;
  }

  lemma RestOfLiteral(was: seq<byte>, at: nat, end: nat)
    requires end <= |was|
    ensures at <= end ==>
              RestText(was, at, end) == TextOf(was[at..end]) && (RestDangling(was, at, end) <==> Dangling(was[at..end]))
    ensures at >= end ==> RestText(was, at, end) == [] && (RestDangling(was, at, end) <==> at > end)
  {}

  lemma Regroup(a: seq<byte>, b: seq<byte>, c: seq<byte>)
    ensures a + (b + c) == (a + b) + c
  {}

  lemma OverwriteParts(s: seq<byte>, at: nat, w: seq<byte>)
    requires at + |w| <= |s|
    ensures Overwrite(s, at, w)[..at + |w|] == s[..at] + w
    ensures forall j :: at + |w| <= j < |s| ==> Overwrite(s, at, w)[j] == s[j]
  {}

  ghost function RestText(was: seq<byte>, at: nat, end: nat): (r: seq<byte>)
    requires end <= |was|
  {
    if at <= end then TextOf(was[at..end]) else []
  }

  ghost predicate RestDangling(was: seq<byte>, at: nat, end: nat)
    requires end <= |was|
  {
    at > end || Dangling(was[at..end])
  }

  lemma TokenStep(was: seq<byte>, at: nat, end: nat)
    requires at < end <= |was|
    ensures var s := was[at..end];
            && at + Consumed(s) <= end + 1 && |Token(s).1| <= Consumed(s)
            && RestText(was, at, end) == Token(s).1 + RestText(was, at + Consumed(s), end)
            && (RestDangling(was, at, end) <==> RestDangling(was, at + Consumed(s), end))
  {
    var s := was[at..end];
    if s == [BACKSLASH] {
      assert TextOf(s) == [QUOTE] + TextOf([]);
    } else {
      assert s[Token(s).0..] == was[at + Token(s).0..end];
    }
  }
}

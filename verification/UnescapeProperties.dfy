// What resolving escapes does to the text of a literal: it undoes the escapes of the exporter, it keeps
// UTF-8 well-formed exactly if no escape asks for a surrogate, and the length is right for every literal that
// the lexer finds.
module UnescapeProperties {
  import opened Bytes
  import opened Unescape
  import opened Utf8

  /* ----- the backslash at the end ----- */

  function TrailingBackslashes(s: seq<byte>): (n: nat)
    ensures n <= |s|
  {
    if s == [] || s[|s| - 1] != BACKSLASH then 0 else 1 + TrailingBackslashes(s[..|s| - 1])
  }

  lemma {:induction false} TrailingOfConcat(a: seq<byte>, b: seq<byte>)
    ensures TrailingBackslashes(a + b)
            == if TrailingBackslashes(b) == |b| then |b| + TrailingBackslashes(a) else TrailingBackslashes(b)
  {
    if b == [] {
      assert a + b == a;
    } else {
      assert (a + b)[..|a + b| - 1] == a + b[..|b| - 1];
      TrailingOfConcat(a, b[..|b| - 1]);
    }
  }

  // The case in which the length would come out one too small: an odd number of backslashes at the end.
  lemma {:induction false} DanglingIsOddRun(s: seq<byte>)
    ensures Dangling(s) <==> TrailingBackslashes(s) % 2 == 1
    decreases |s|
  {
    DanglingBase(s);
    hide Token, Dangling, TrailingBackslashes;
    if s != [] && s != [BACKSLASH] {
      var n := Token(s).0;
      DanglingIsOddRun(s[n..]);
      TokenRun(s);
      TrailingOfConcat(s[..n], s[n..]);
      assert s == s[..n] + s[n..];
    }
  }

  lemma DanglingBase(s: seq<byte>)
    ensures s == [] || s == [BACKSLASH] ==> (Dangling(s) <==> TrailingBackslashes(s) % 2 == 1)
    ensures s != [] && s != [BACKSLASH] ==> (Dangling(s) <==> Dangling(s[Token(s).0..]))
  {
    if s == [BACKSLASH] {
      assert TrailingBackslashes(s[..0]) == 0;
    }
  }

  // A token ends with no backslash, or it consists of two.
  lemma TokenRun(s: seq<byte>)
    requires s != [] && s != [BACKSLASH]
    ensures TrailingBackslashes(s[..Token(s).0]) % 2 == 0
  {
    var n := Token(s).0;
    var t := s[..n];
    if s[0] == BACKSLASH {
      if n > 2 {
        LastDigit(s, n);
      } else {
        assert t[..1] == [s[0]] && t[..1][..0] == [];
        assert TrailingBackslashes(t[..1]) == 1;
      }
    }
  }

  lemma LastDigit(s: seq<byte>, n: nat)
    requires |s| >= 2 && s[0] == BACKSLASH && n == Token(s).0 > 2
    ensures n <= |s| && IsHex(s[n - 1])
  {
    assert s[2..][n - 3] == s[n - 1];
  }

  /* ----- the lexer ----- */

  // What the lexer's rule for strings allows between the quotes: bytes other than quote and backslash, and
  // backslashes each followed by a byte other than newline.
  predicate Lexed(s: seq<byte>)
    decreases |s|
  {
    || s == []
    || (s[0] != QUOTE && s[0] != BACKSLASH && Lexed(s[1..]))
    || (|s| >= 2 && s[0] == BACKSLASH && s[1] != NEWLINE && Lexed(s[2..]))
  }

  // No literal that the lexer finds ends with a backslash of its own.
  lemma {:induction false} LexedIsNotDangling(s: seq<byte>)
    requires Lexed(s)
    ensures !Dangling(s) && TrailingBackslashes(s) % 2 == 0
    decreases |s|
  {
    DanglingIsOddRun(s);
    hide Dangling, TrailingBackslashes;
    if s != [] {
      var n := if s[0] == BACKSLASH then 2 else 1;
      LexedIsNotDangling(s[n..]);
      ShortRun(s[..n]);
      TrailingOfConcat(s[..n], s[n..]);
      assert s == s[..n] + s[n..];
    }
  }

  lemma ShortRun(t: seq<byte>)
    requires (|t| == 1 && t[0] != BACKSLASH) || (|t| == 2 && t[0] == BACKSLASH)
    ensures TrailingBackslashes(t) % 2 == 0
  {
    if |t| == 2 {
      assert t[..1] == [BACKSLASH] && t[..1][..0] == [];
      assert TrailingBackslashes(t[..1]) == 1;
    }
  }

  // A string token of the lexer, in quotes, becomes its text; the length is the length of the text.
  method ReadLiteral(str: array<byte>, strLen: nat) returns (newLen: nat)
    requires 2 <= strLen <= str.Length && str[0] == QUOTE && str[strLen - 1] == QUOTE && Lexed(str[1..strLen - 1])
    modifies str
    ensures newLen == |TextOf(old(str[1..strLen - 1]))| && newLen + 2 <= strLen
    ensures str[..newLen] == TextOf(old(str[1..strLen - 1])) && str[newLen] == 0
    ensures str[strLen..] == old(str[strLen..])
  {
    hide Lexed, Dangling;
    LexedIsNotDangling(str[1..strLen - 1]);
    newLen := NormalizeStringLiteral(str, strLen);
  }

  /* ----- what the escapes stand for ----- */

  // b is a hexadecimal digit for d, in either case.
  predicate IsDigitFor(b: byte, d: nat) {
    || (d < 10 && b == 0x30 + d)
    || (10 <= d < 16 && (b == 0x41 + (d - 10) || b == 0x61 + (d - 10)))
  }

  // s are the hexadecimal digits of n, the most significant one first.
  predicate Spells(s: seq<byte>, n: nat) {
    if s == [] then n == 0 else IsDigitFor(s[|s| - 1], n % 16) && Spells(s[..|s| - 1], n / 16)
  }

  // The digits of a number, and no others, are read as that number.
  lemma {:induction false} DigitsOfNumber(s: seq<byte>, n: nat)
    ensures Spells(s, n) <==> AllHex(s) && HexValue(s) == n
  {
    if s != [] {
      var front, last := s[..|s| - 1], s[|s| - 1];
      DigitsOfNumber(front, n / 16);
      assert forall i :: 0 <= i < |front| ==> front[i] == s[i];
      if IsHex(last) {
        assert IsDigitFor(last, n % 16) <==> Digit(last) == n % 16;
      }
    }
  }

  // Every number of at most that many digits has such digits.
  lemma {:induction false} DigitsExist(n: nat, k: nat) returns (s: seq<byte>)
    requires n < Pow16(k)
    ensures |s| == k && Spells(s, n)
  {
    if k == 0 {
      s := [];
    } else {
      var front := DigitsExist(n / 16, k - 1);
      s := front + [if n % 16 < 10 then 0x30 + n % 16 else 0x61 + (n % 16 - 10)];
      assert s[..|s| - 1] == front;
    }
  }

  // A backslash, u and the four digits of a scalar value stand for its UTF-8 form, and so do U and eight digits.
  lemma CodepointEscape(letter: byte, digits: seq<byte>, code: nat, rest: seq<byte>)
    requires (letter == 0x75 && |digits| == 4) || (letter == 0x55 && |digits| == 8)
    requires Spells(digits, code)
    ensures IsScalar(code) ==> TextOf([0x5C, letter] + digits + rest) == WriteUtf8(code) + TextOf(rest)
    ensures code > 0x10FFFF ==> TextOf([0x5C, letter] + digits + rest) == [0xEF, 0xBF, 0xBD] + TextOf(rest)
    ensures 0xD800 <= code <= 0xDFFF ==>
              TextOf([0x5C, letter] + digits + rest) == [0xED, 0x80 + code / 64 % 64, 0x80 + code % 64] + TextOf(rest)
  {
    var s := [0x5C, letter] + digits + rest;
    DigitsToken(letter, digits, code, rest);
    EscapeText(s);
    assert s[2 + |digits|..] == rest;
    EncodedCodepoint(code);
    hide *;
  }

  lemma EncodedCodepoint(code: nat)
    ensures IsScalar(code) ==> EncodeCodepoint(code) == WriteUtf8(code)
    ensures code > 0x10FFFF ==> EncodeCodepoint(code) == [0xEF, 0xBF, 0xBD]
    ensures 0xD800 <= code <= 0xDFFF ==> EncodeCodepoint(code) == [0xED, 0x80 + code / 64 % 64, 0x80 + code % 64]
  {}

  // The escape and its digits are one token.
  lemma DigitsToken(letter: byte, digits: seq<byte>, code: nat, rest: seq<byte>)
    requires (letter == 0x75 && |digits| == 4) || (letter == 0x55 && |digits| == 8)
    requires Spells(digits, code)
    ensures Token([0x5C, letter] + digits + rest) == (2 + |digits|, EncodeCodepoint(code))
  {
    DigitsOfNumber(digits, code);
    var s, n := [0x5C, letter] + digits + rest, |digits|;
    assert s[2..] == digits + rest && s[2..][..n] == digits;
    assert forall i :: 0 <= i < n ==> s[2..][i] == digits[i];
    hide Spells, HexValue, EncodeCodepoint;
    assert CodepointAt(s[2..], n) == Some(code);
    hide CodepointAt;
  }

  predicate AllHex(s: seq<byte>) { forall i :: 0 <= i < |s| ==> IsHex(s[i]) }

  // Without the digits, u and U stand for themselves, like every other byte that the importer does not know.
  lemma OtherEscape(b: byte, rest: seq<byte>)
    requires b !in {0x22, 0x5C, 0x2F, 0x6E, 0x74, 0x72}
    requires b == 0x75 ==> |rest| < 4 || !AllHex(rest[..4])
    requires b == 0x55 ==> |rest| < 8 || !AllHex(rest[..8])
    ensures TextOf([0x5C, b] + rest) == [0x5C, b] + TextOf(rest)
  {
    var s := [0x5C, b] + rest;
    assert s[2..] == rest;
    NoCodepoint(rest, 4);
    NoCodepoint(rest, 8);
    hide CodepointAt, AllHex, Token;
    UnknownToken(s);
    EscapeText(s);
  }

  lemma NoCodepoint(s: seq<byte>, n: nat)
    ensures |s| < n || !AllHex(s[..n]) ==> CodepointAt(s, n) == None
  {
    if n <= |s| {
      assert forall i :: 0 <= i < n ==> s[..n][i] == s[i];
    }
  }

  // Bytes that are not backslashes stand for themselves.
  lemma PlainByte(b: byte, rest: seq<byte>)
    requires b != 0x5C
    ensures TextOf([b] + rest) == [b] + TextOf(rest)
  {
    CopiedByte([b] + rest);
    assert ([b] + rest)[1..] == rest;
  }

  // The escapes of one byte.
  lemma ByteEscapes(rest: seq<byte>)
    ensures TextOf([]) == []
    ensures TextOf([0x5C, 0x22] + rest) == [0x22] + TextOf(rest)
    ensures TextOf([0x5C, 0x5C] + rest) == [0x5C] + TextOf(rest)
    ensures TextOf([0x5C, 0x2F] + rest) == [0x2F] + TextOf(rest)
    ensures TextOf([0x5C, 0x6E] + rest) == [0x0A] + TextOf(rest)
    ensures TextOf([0x5C, 0x74] + rest) == [0x09] + TextOf(rest)
    ensures TextOf([0x5C, 0x72] + rest) == [0x0D] + TextOf(rest)
  {
    ByteEscape(0x22, 0x22, rest);
    ByteEscape(0x5C, 0x5C, rest);
    ByteEscape(0x2F, 0x2F, rest);
    ByteEscape(0x6E, 0x0A, rest);
    ByteEscape(0x74, 0x09, rest);
    ByteEscape(0x72, 0x0D, rest);
  }

  lemma ByteEscape(b: byte, c: byte, rest: seq<byte>)
    requires SimpleEscape(b) == Some(c)
    ensures TextOf([0x5C, b] + rest) == [c] + TextOf(rest)
  {
    var s := [0x5C, b] + rest;
    assert s[2..] == rest && Token(s) == (2, [c]);
  }

  /* ----- the exporter ----- */

  // How the exporter writes one byte of a string.
  function EscapeByte(b: byte): (r: seq<byte>) {
    if b == QUOTE || b == BACKSLASH then [BACKSLASH, b]
    else if b == BACKSPACE then [BACKSLASH, SMALL_B]
    else if b == FORM_FEED then [BACKSLASH, SMALL_F]
    else if b == NEWLINE then [BACKSLASH, SMALL_N]
    else if b == RETURN then [BACKSLASH, SMALL_R]
    else if b == TAB then [BACKSLASH, SMALL_T]
    else [b]
  }

  function Escape(s: seq<byte>): (r: seq<byte>) {
    if s == [] then [] else EscapeByte(s[0]) + Escape(s[1..])
  }

  // The importer does not know the escapes for backspace and form feed.
  predicate Importable(b: byte) { b != BACKSPACE && b != FORM_FEED }

  // What the exporter writes the importer reads back, exactly if there is no backspace and no form feed.
  lemma EscapeRoundTrip(s: seq<byte>)
    ensures TextOf(Escape(s)) == s <==> forall i :: 0 <= i < |s| ==> Importable(s[i])
  {
    UnescapeEscape(s);
    ReadBackIdentity(s);
  }

  // An exported text can stand between quotes, and on one line of tab-separated values.
  lemma {:induction false} EscapedIsLexed(s: seq<byte>)
    ensures Lexed(Escape(s))
    ensures forall i :: 0 <= i < |Escape(s)| ==> Escape(s)[i] !in {0x08, 0x09, 0x0A, 0x0C, 0x0D}
  {
    if s != [] {
      EscapedIsLexed(s[1..]);
      var e, rest := EscapeByte(s[0]), Escape(s[1..]);
      assert (e + rest)[|e|..] == rest;
    }
  }

  // The two bytes that come back as the letters of their escapes.
  lemma UnknownControls()
    ensures TextOf(Escape([0x08])) == [0x5C, 0x62] && TextOf(Escape([0x0C])) == [0x5C, 0x66]
  {
    UnescapeEscape([0x08]);
    UnescapeEscape([0x0C]);
    assert ReadBack([]) == [];
    assert [0x5C, 0x62] + [] == [0x5C, 0x62] && [0x5C, 0x66] + [] == [0x5C, 0x66];
  }

  function ReadBack(s: seq<byte>): (r: seq<byte>) {
    if s == [] then [] else (if Importable(s[0]) then [s[0]] else EscapeByte(s[0])) + ReadBack(s[1..])
  }

  lemma {:induction false} UnescapeEscape(s: seq<byte>)
    ensures TextOf(Escape(s)) == ReadBack(s)
  {
    if s != [] {
      UnescapeEscape(s[1..]);
      OneEscape(s[0], Escape(s[1..]));
    }
  }

  lemma OneEscape(b: byte, rest: seq<byte>)
    ensures TextOf(EscapeByte(b) + rest) == (if Importable(b) then [b] else EscapeByte(b)) + TextOf(rest)
  {
    var s := EscapeByte(b) + rest;
    assert s[|EscapeByte(b)|..] == rest;
    assert Token(s) == (|EscapeByte(b)|, if Importable(b) then [b] else EscapeByte(b));
  }

  lemma {:induction false} ReadBackIdentity(s: seq<byte>)
    ensures |ReadBack(s)| >= |s|
    ensures |ReadBack(s)| == |s| ==> ReadBack(s) == s
    ensures |ReadBack(s)| == |s| <==> forall i :: 0 <= i < |s| ==> Importable(s[i])
  {
    if s != [] {
      ReadBackIdentity(s[1..]);
      assert s == [s[0]] + s[1..];
    }
  }

  /* ----- UTF-8 ----- */

  // No escape of the literal asks for half of a surrogate pair.
  predicate NoSurrogateEscapes(s: seq<byte>)
    decreases |s|
  {
    s == [] || (NoSurrogateEscape(s) && NoSurrogateEscapes(s[Token(s).0..]))
  }

  predicate NoSurrogateEscape(s: seq<byte>) {
    && (|s| >= 2 && s[0] == BACKSLASH && s[1] == SMALL_U && CodepointAt(s[2..], 4).Some? ==>
          !IsSurrogate(CodepointAt(s[2..], 4).value))
    && (|s| >= 2 && s[0] == BACKSLASH && s[1] == BIG_U && CodepointAt(s[2..], 8).Some? ==>
          !IsSurrogate(CodepointAt(s[2..], 8).value))
  }

  lemma FirstChar(s: seq<byte>) returns (k: nat)
    requires WellFormed(s) && s != []
    ensures 1 <= k <= |s| && IsUtf8Char(s[..k]) && WellFormed(s[k..])
    ensures s[0] < 0x80 ==> k == 1
    ensures s[0] >= 0x80 ==> forall i :: 0 <= i < k ==> s[i] >= 0x80
  {
    k :| 1 <= k <= |s| && IsUtf8Char(s[..k]) && WellFormed(s[k..]);
    assert forall i :: 0 <= i < k ==> s[..k][i] == s[i];
  }

  lemma WellFormedCons(c: seq<byte>, s: seq<byte>)
    requires IsUtf8Char(c) && WellFormed(s)
    ensures WellFormed(c + s)
  {
    hide IsUtf8Char;
    var k := |c|;
    assert (c + s)[..k] == c && (c + s)[k..] == s;
    if k == 0 {
      assert c + s == s;
    }
  }

  // Bytes that are not backslashes stand for themselves.
  lemma {:induction false} CopiedBytes(s: seq<byte>, k: nat)
    requires k <= |s| && forall i :: 0 <= i < k ==> s[i] != BACKSLASH
    ensures TextOf(s) == s[..k] + TextOf(s[k..])
    ensures NoSurrogateEscapes(s) <==> NoSurrogateEscapes(s[k..])
  {
    hide *;
    if k == 0 {
      assert s[0..] == s;
    } else {
      CopiedByte(s);
      CopiedBytes(s[1..], k - 1);
      assert s[1..][k - 1..] == s[k..] && s[..k] == [s[0]] + s[1..][..k - 1];
      ConsAppend(s[0], s[1..][..k - 1], TextOf(s[k..]));
    }
  }

  lemma ConsAppend(a: byte, u: seq<byte>, v: seq<byte>)
    ensures [a] + (u + v) == ([a] + u) + v
  {}

  lemma CopiedByte(s: seq<byte>)
    requires s != [] && s[0] != BACKSLASH
    ensures TextOf(s) == [s[0]] + TextOf(s[1..])
    ensures NoSurrogateEscapes(s) <==> NoSurrogateEscapes(s[1..])
  {}

  lemma EscapeText(s: seq<byte>)
    requires s != []
    ensures TextOf(s) == Token(s).1 + TextOf(s[Token(s).0..])
    ensures NoSurrogateEscapes(s) <==> NoSurrogateEscape(s) && NoSurrogateEscapes(s[Token(s).0..])
  {}

  // An escape that is not known is left as it is, up to the end of the character after the backslash.
  lemma UnknownEscapeText(s: seq<byte>, k: nat)
    requires |s| >= 2 && s[0] == BACKSLASH && !KnownEscape(s) && 1 <= k < |s|
    requires forall i :: 2 <= i <= k ==> s[i] != BACKSLASH
    ensures TextOf(s) == [BACKSLASH] + (s[1..1 + k] + TextOf(s[1 + k..]))
    ensures NoSurrogateEscapes(s) <==> NoSurrogateEscapes(s[1 + k..])
  {
    hide TextOf, Token, NoSurrogateEscapes, KnownEscape;
    EscapeText(s);
    UnknownToken(s);
    CopiedBytes(s[2..], k - 1);
    assert s[2..][k - 1..] == s[1 + k..];
    RegroupEscape(BACKSLASH, s[1], s[2..][..k - 1], TextOf(s[1 + k..]));
    assert s[1..1 + k] == [s[1]] + s[2..][..k - 1];
  }

  lemma UnknownToken(s: seq<byte>)
    requires |s| >= 2 && s[0] == BACKSLASH && !KnownEscape(s)
    ensures Token(s) == (2, [BACKSLASH, s[1]]) && NoSurrogateEscape(s)
  {}

  lemma RegroupEscape(a: byte, b: byte, u: seq<byte>, v: seq<byte>)
    ensures [a, b] + (u + v) == [a] + (([b] + u) + v)
  {}

  lemma {:induction false} AfterAscii(s: seq<byte>, n: nat)
    requires WellFormed(s) && n <= |s| && forall i :: 0 <= i < n ==> s[i] < 0x80
    ensures WellFormed(s[n..])
  {
    if n == 0 {
      assert s[0..] == s;
    } else {
      var k := FirstChar(s);
      AfterAscii(s[1..], n - 1);
      assert s[1..][n - 1..] == s[n..];
    }
  }

  predicate KnownEscape(s: seq<byte>) {
    && |s| >= 2 && s[0] == BACKSLASH
    && (|| SimpleEscape(s[1]).Some?
        || (s[1] == SMALL_U && CodepointAt(s[2..], 4).Some?)
        || (s[1] == BIG_U && CodepointAt(s[2..], 8).Some?))
  }

  // A known escape stands for one character, unless it asks for a surrogate, whose bytes start none.
  lemma KnownEscapeToken(s: seq<byte>)
    requires KnownEscape(s)
    ensures forall i :: 0 <= i < Token(s).0 ==> s[i] < 0x80
    ensures NoSurrogateEscape(s) ==> IsUtf8Char(Token(s).1)
    ensures !NoSurrogateEscape(s) ==> Token(s).1[0] == 0xED && |Token(s).1| == 3 && Token(s).1[1] >= 0xA0
  {
    forall i | 0 <= i < Token(s).0 ensures s[i] < 0x80 {
      if i >= 2 {
        assert s[2..][i - 2] == s[i];
      }
    }
  }

  lemma NoSurrogateChar(t: seq<byte>, rest: seq<byte>)
    requires |t| == 3 && t[0] == 0xED && t[1] >= 0xA0
    ensures !WellFormed(t + rest)
  {
    var s := t + rest;
    assert s[0] == 0xED && s[1] >= 0xA0;
    forall k | 1 <= k <= |s| ensures !IsUtf8Char(s[..k]) {
      assert k >= 2 ==> s[..k][1] == s[1];
      assert s[..k][0] == s[0];
    }
  }

  // Characters can be taken off the front one by one.
  lemma WellFormedTail(c: seq<byte>, s: seq<byte>)
    requires IsUtf8Char(c)
    ensures WellFormed(c + s) <==> WellFormed(s)
  {
    hide IsUtf8Char, Read;
    var t := c + s;
    assert t[..|c|] == c && t[|c|..] == s;
    if WellFormed(t) && t != [] {
      var k := FirstChar(t);
      WriteRead(t, k);
      WriteRead(t, |c|);
    }
    if WellFormed(s) {
      WellFormedCons(c, s);
    }
    assert c == [] ==> t == s;
  }

  // The text of a well-formed literal is well-formed exactly if no escape asks for a surrogate.
  lemma {:induction false} TextIsWellFormed(s: seq<byte>)
    requires WellFormed(s)
    ensures WellFormed(TextOf(s)) <==> NoSurrogateEscapes(s)
    decreases |s|, 1
  {
    hide IsUtf8Char, WellFormed, TextOf, Token, NoSurrogateEscapes, NoSurrogateEscape, KnownEscape;
    if s == [] {
      EmptyText();
    } else if s[0] != BACKSLASH {
      var k := FirstChar(s);
      CopiedBytes(s, k);
      TextIsWellFormed(s[k..]);
      WellFormedTail(s[..k], TextOf(s[k..]));
    } else if KnownEscape(s) {
      EscapeText(s);
      KnownEscapeToken(s);
      AfterAscii(s, Token(s).0);
      TextIsWellFormed(s[Token(s).0..]);
      if NoSurrogateEscape(s) {
        WellFormedTail(Token(s).1, TextOf(s[Token(s).0..]));
      } else {
        NoSurrogateChar(Token(s).1, TextOf(s[Token(s).0..]));
      }
    } else if |s| == 1 {
      LoneBackslash(s);
    } else {
      AfterAscii(s, 1);
      UnknownEscapeWellFormed(s);
    }
  }

  lemma UnknownEscapeWellFormed(s: seq<byte>)
    requires |s| >= 2 && s[0] == BACKSLASH && !KnownEscape(s) && WellFormed(s[1..])
    ensures WellFormed(TextOf(s)) <==> NoSurrogateEscapes(s)
    decreases |s|, 0
  {
    hide IsUtf8Char, WellFormed, TextOf, Token, NoSurrogateEscapes, KnownEscape;
    var k := FirstChar(s[1..]);
    assert s[1..][..k] == s[1..1 + k] && s[1..][k..] == s[1 + k..];
    assert forall i :: 0 <= i < k ==> s[1..][i] == s[1 + i];
    UnknownEscapeText(s, k);
    TextIsWellFormed(s[1 + k..]);
    WellFormedTail(s[1..1 + k], TextOf(s[1 + k..]));
    AsciiChar(BACKSLASH);
    WellFormedTail([BACKSLASH], s[1..1 + k] + TextOf(s[1 + k..]));
  }

  lemma EmptyText()
    ensures TextOf([]) == [] && WellFormed([]) && NoSurrogateEscapes([])
  {}

  lemma LoneBackslash(s: seq<byte>)
    requires s == [BACKSLASH]
    ensures WellFormed(TextOf(s)) && NoSurrogateEscapes(s)
  {
    AsciiChar(QUOTE);
    assert s[1..] == [];
    assert TextOf(s) == [QUOTE] + TextOf([]) == [QUOTE];
  }

  lemma AsciiChar(b: byte)
    requires b < 0x80
    ensures IsUtf8Char([b]) && WellFormed([b])
  {
    assert [b][..1] == [b];
  }
}
